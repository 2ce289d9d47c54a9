/** Binary unit conversions and the three-way file-size bucket of the report
    (Reports_Generic.py, bytes_to_kb / bytes_to_mb / bytes_to_gb and size_groups).
    Sizes in KB, MB and GB are exact reals: floating-point rounding is not modelled. */
module SizeUnits {

  const BytesPerKb: real := 1024.0
  const BytesPerMb: real := 1048576.0      // 1024 ** 2
  const BytesPerGb: real := 1073741824.0   // 1024 ** 3

  function BytesToKb(bytes: int): (kb: real)
    ensures kb * BytesPerKb == bytes as real
  {
    bytes as real / 1024.0
  }

  function BytesToMb(bytes: int): (mb: real)
    ensures mb * BytesPerMb == bytes as real
  {
    bytes as real / 1048576.0
  }

  function BytesToGb(bytes: int): (gb: real)
    ensures gb * BytesPerGb == bytes as real
  {
    bytes as real / 1073741824.0
  }

  /** Each unit is 1024 of the next larger one. */
  lemma UnitsChain(bytes: int)
    ensures BytesToKb(bytes) == 1024.0 * BytesToMb(bytes)
    ensures BytesToMb(bytes) == 1024.0 * BytesToGb(bytes)
  {
  }

  /** The conversions are additive, so converting a sum equals summing conversions. */
  lemma ConversionsAdditive(a: int, b: int)
    ensures BytesToKb(a + b) == BytesToKb(a) + BytesToKb(b)
    ensures BytesToMb(a + b) == BytesToMb(a) + BytesToMb(b)
    ensures BytesToGb(a + b) == BytesToGb(a) + BytesToGb(b)
  {
  }

  /** The conversions are strictly monotone. */
  lemma ConversionsMonotone(a: int, b: int)
    ensures a <= b <==> BytesToKb(a) <= BytesToKb(b)
    ensures a <= b <==> BytesToMb(a) <= BytesToMb(b)
    ensures a <= b <==> BytesToGb(a) <= BytesToGb(b)
  {
  }

  /** One mebibyte of bytes is exactly 1024 KB and exactly 1 MB. */
  lemma OneMebibyte()
    ensures BytesToKb(1048576) == 1024.0
    ensures BytesToMb(1048576) == 1.0
  {
  }

  // The three labels that size_groups returns.
  const AtMostOneMb: string := "less than or equal to 1MB"
  const OneToTenMb: string := "less than or equal to 10MB and greater than 1MB"
  const OverTenMb: string := "greater than 10MB"

  /** size_groups: the bucket of a file whose size is given in MB. The source's
      last branch is `elif FileSizeMB > 10`, which always holds once the first
      two guards failed on a real (there is no NaN among reals). */
  function SizeGroup(sizeMb: real): (bucket: string)
    ensures bucket == AtMostOneMb <==> sizeMb <= 1.0
    ensures bucket == OneToTenMb <==> 1.0 < sizeMb <= 10.0
    ensures bucket == OverTenMb <==> 10.0 < sizeMb
    ensures bucket in {AtMostOneMb, OneToTenMb, OverTenMb}
  {
    if sizeMb <= 1.0 then AtMostOneMb
    else if sizeMb > 1.0 && sizeMb <= 10.0 then OneToTenMb
    else OverTenMb
  }

  /** For a whole number of bytes, the buckets fall at 1048576 and 10485760 bytes. */
  lemma SizeGroupOfBytes(bytes: int)
    ensures SizeGroup(BytesToMb(bytes)) == AtMostOneMb <==> bytes <= 1048576
    ensures SizeGroup(BytesToMb(bytes)) == OneToTenMb <==> 1048576 < bytes <= 10485760
    ensures SizeGroup(BytesToMb(bytes)) == OverTenMb <==> 10485760 < bytes
  {
    var mb := BytesToMb(bytes);
    assert mb * BytesPerMb == bytes as real;
    assert mb <= 1.0 <==> bytes <= 1048576;
    assert mb <= 10.0 <==> bytes <= 10485760;
  }
}
