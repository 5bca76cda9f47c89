/** String helpers. A .NET string is a sequence of UTF-16 code units (its
    `Length` and `Substring` count code units, not characters); one that may
    be null is an Option<Utf16>. */
module StringUtil {

  import opened Wrappers

  /** One UTF-16 code unit (a .NET `char`). */
  newtype CodeUnit = x: int | 0 <= x < 0x1_0000

  type Utf16 = seq<CodeUnit>

  /** Truncate(v, length): null stays null, a string no longer than `length`
      code units is returned as it is, a longer one is cut to its first
      `length` code units (which may split a surrogate pair).
      `Substring(0, length)` throws for a negative length, which is reached
      for every non-null string, so a non-null string needs length >= 0. */
  function Truncate(v: Option<Utf16>, length: int): (r: Option<Utf16>)
    requires v.Some? ==> length >= 0
    ensures r.None? <==> v.None?
    ensures r.Some? ==> |r.value| == (if |v.value| <= length then |v.value| else length)
    ensures r.Some? ==> r.value == v.value[..|r.value|]
  {
    match v
    case None => None
    case Some(s) => if |s| > length then Some(s[..length]) else v
  }

  /** Truncating twice is truncating once. */
  lemma TruncateIdempotent(v: Option<Utf16>, length: int)
    requires v.Some? ==> length >= 0
    ensures Truncate(Truncate(v, length), length) == Truncate(v, length)
  {
  }

  /** Lengths count code units: U+1F600 followed by 'a' is three code units,
      and truncating it to one keeps only the high surrogate. */
  lemma TruncateSplitsSurrogatePair()
    ensures Truncate(Some([0xD83D, 0xDE00, 0x61]), 1) == Some([0xD83D])
  {
    var s: Utf16 := [0xD83D, 0xDE00, 0x61];
    assert s[..1] == [0xD83D];
  }

  /** The check IsBase64 makes before trying to decode: non-null, non-empty,
      a length in code units that is a multiple of 4. */
  predicate Base64Candidate(value: Option<Utf16>)
    ensures Base64Candidate(value) <==> value.Some? && |value.value| > 0 && |value.value| % 4 == 0
  {
    !(value.None? || |value.value| == 0 || |value.value| % 4 != 0)
  }

  /** IsBase64(value): the Convert.FromBase64String attempt is the parameter
      `decodes` (true when it does not throw). The answer is true exactly
      when the value passes the guard and the decoder accepts it. */
  function IsBase64(value: Option<Utf16>, decodes: Utf16 -> bool): (r: bool)
    ensures r ==> value.Some? && |value.value| > 0 && |value.value| % 4 == 0
    ensures r ==> decodes(value.value)
    ensures value.Some? && |value.value| > 0 && |value.value| % 4 == 0 && decodes(value.value) ==> r
  {
    if !Base64Candidate(value) then false else decodes(value.value)
  }

  /** A value that fails the guard is rejected without consulting the
      decoder: the answer is the same for every decoder. */
  lemma GuardRejectsWithoutDecoding(value: Option<Utf16>, decodes: Utf16 -> bool, other: Utf16 -> bool)
    requires !Base64Candidate(value)
    ensures !IsBase64(value, decodes) && IsBase64(value, decodes) == IsBase64(value, other)
  {
  }

  /** The guard counts code units: 'a', 'b', U+1F600 is four code units, so
      it reaches the decoder. */
  lemma GuardCountsCodeUnits()
    ensures Base64Candidate(Some([0x61, 0x62, 0xD83D, 0xDE00]))
  {
  }
}
