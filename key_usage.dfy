/** The data budget of one key in magma.cpp (`check_key_usage`): at most 20 KiB
    per key, with a warning to change the key once more than 10 KiB are processed. */
module KeyUsage {

  /** Bytes one key may process (`20 * 1024`). */
  const MaxBytesPerKey: nat := 20 * 1024

  /** Bytes after which a change of key is recommended (`10 * 1024`). */
  const WarnBytesPerKey: nat := 10 * 1024

  /** What check_key_usage decides: whether to go on, and whether it printed the warning. */
  datatype UsageVerdict = UsageVerdict(allowed: bool, warned: bool)

  /** `check_key_usage`: refuse above the maximum; above the warning level, warn and still go on. */
  function CheckKeyUsage(bytesProcessed: nat): (v: UsageVerdict)
    ensures v.allowed <==> bytesProcessed <= MaxBytesPerKey
    ensures v.warned <==> WarnBytesPerKey < bytesProcessed <= MaxBytesPerKey
    ensures v.warned ==> v.allowed
  {
    if bytesProcessed > MaxBytesPerKey then UsageVerdict(false, false)
    else if bytesProcessed > WarnBytesPerKey then UsageVerdict(true, true)
    else UsageVerdict(true, false)
  }

  /** Refusal is monotone: a key refused for n bytes is refused for any more. */
  lemma RefusalIsMonotone(n: nat, m: nat)
    requires n <= m && !CheckKeyUsage(n).allowed
    ensures !CheckKeyUsage(m).allowed
  {
  }
}
