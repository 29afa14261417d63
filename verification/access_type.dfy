/**
  The access width: the one-character code a caller passes, how it is
  read (`read_access_type`), and the three widths the load and store
  switches dispatch over.
 */
module AccessType {
  import opened Bits
  import opened Window

  datatype Option<+T> = None | Some(value: T)

  /** The three access widths: `unsigned char`, `unsigned short`, `unsigned long`. */
  datatype Width = Byte | Half | Word

  /** Number of bytes an access of width `w` loads or stores. */
  function Size(w: Width): nat
  {
    match w
    case Byte => 1
    case Half => 2
    case Word => WordBytes
  }

  /** ASCII codes used below. */
  const NUL: Octet := 0x00
  const UpperA: Octet := 0x41
  const UpperZ: Octet := 0x5A
  const CaseGap: Octet := 0x20

  predicate IsUpper(c: Octet)
  {
    UpperA <= c <= UpperZ
  }

  /** C's `tolower` in the "C" locale: only 'A'..'Z' change. */
  function ToLower(c: Octet): (l: Octet)
    ensures !IsUpper(l)
    ensures l == c || (IsUpper(c) && l == c + CaseGap)
  {
    if IsUpper(c) then c + CaseGap else c
  }

  /**
    `read_access_type`: the lower-cased first byte of the Ruby string. A
    Ruby string is stored with a terminating NUL, so an empty string yields
    NUL.
   */
  function AccessCode(s: seq<Octet>): (c: Octet)
    ensures !IsUpper(c)
    ensures |s| == 0 ==> c == NUL
    ensures |s| > 0 ==> c == s[0] || (IsUpper(s[0]) && c == s[0] + CaseGap)
  {
    ToLower(if |s| == 0 then NUL else s[0])
  }

  /** The lower-case code that selects each width: 'b', 'h', 'w'. */
  function CodeOf(w: Width): Octet
  {
    match w
    case Byte => 0x62
    case Half => 0x68
    case Word => 0x77
  }

  /** The `case` labels of the width switch; anything else falls to `default`. */
  function DecodeWidth(code: Octet): (r: Option<Width>)
    ensures r.Some? ==> CodeOf(r.value) == code
    ensures r.None? ==> forall w: Width :: CodeOf(w) != code
  {
    if code == CodeOf(Byte) then Some(Byte)
    else if code == CodeOf(Half) then Some(Half)
    else if code == CodeOf(Word) then Some(Word)
    else None
  }

  /** Each width's code decodes back to that width. */
  lemma DecodeCodeOf(w: Width)
    ensures DecodeWidth(CodeOf(w)) == Some(w)
  {
  }

  /**
    Width codes are case-insensitive and only the first character counts:
    a string selects width `w` exactly when it starts with the lower- or
    upper-case code of `w`.
   */
  lemma SelectsWidthIff(s: seq<Octet>, w: Width)
    ensures DecodeWidth(AccessCode(s)) == Some(w)
            <==> |s| > 0 && (s[0] == CodeOf(w) || s[0] == CodeOf(w) - CaseGap)
  {
  }

  /** The empty string selects no width. */
  lemma EmptyCodeIsIllegal()
    ensures DecodeWidth(AccessCode([])) == None
  {
  }
}
