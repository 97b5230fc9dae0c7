/** Document ids as the user service sees them: twelve bytes written as 24 hex digits.
    `ObjectId(s)` accepts exactly the 24-character hex strings, in either case;
    `str(oid)` writes the lowercase form. An id is modelled by the number its bytes
    denote. */
module ObjectIds {
  import opened Wrappers

  function Pow16(n: nat): (r: nat)
    ensures r >= 1
  {
    if n == 0 then 1 else 16 * Pow16(n - 1)
  }

  const IdLength: nat := 24

  /** The number of distinct ids, 2^96. */
  const IdSpace: nat := Pow16(IdLength)

  predicate IsHexDigit(c: char) {
    '0' <= c <= '9' || 'a' <= c <= 'f' || 'A' <= c <= 'F'
  }

  predicate AllHex(s: string) {
    forall i :: 0 <= i < |s| ==> IsHexDigit(s[i])
  }

  predicate IsLowerHexDigit(c: char) {
    '0' <= c <= '9' || 'a' <= c <= 'f'
  }

  predicate AllLowerHex(s: string) {
    forall i :: 0 <= i < |s| ==> IsLowerHexDigit(s[i])
  }

  function HexDigitValue(c: char): (v: nat)
    requires IsHexDigit(c)
    ensures v < 16
  {
    if '0' <= c <= '9' then c as int - '0' as int
    else if 'a' <= c <= 'f' then c as int - 'a' as int + 10
    else c as int - 'A' as int + 10
  }

  /** The lowercase digit of a value below 16, the inverse of `HexDigitValue`. */
  function HexDigit(v: nat): (c: char)
    requires v < 16
    ensures IsLowerHexDigit(c) && HexDigitValue(c) == v
  {
    if v < 10 then ('0' as int + v) as char else ('a' as int + v - 10) as char
  }

  /** The lowercase form of a hex digit. */
  function LowerHexDigit(c: char): (r: char)
    requires IsHexDigit(c)
    ensures IsLowerHexDigit(r) && HexDigitValue(r) == HexDigitValue(c)
    ensures IsLowerHexDigit(c) ==> r == c
  {
    if 'A' <= c <= 'F' then (c as int + 32) as char else c
  }

  function LowerHex(s: string): (r: string)
    requires AllHex(s)
    ensures |r| == |s| && AllLowerHex(r)
    ensures forall i :: 0 <= i < |s| ==> r[i] == LowerHexDigit(s[i])
  {
    if s == [] then [] else LowerHex(s[..|s| - 1]) + [LowerHexDigit(s[|s| - 1])]
  }

  /** The number a string of hex digits denotes, most significant digit first. */
  function HexValue(s: string): (v: nat)
    requires AllHex(s)
    ensures v < Pow16(|s|)
  {
    if s == [] then 0 else 16 * HexValue(s[..|s| - 1]) + HexDigitValue(s[|s| - 1])
  }

  /** The `n` lowest hex digits of `k`, lowercase and zero-padded. */
  function Render(k: nat, n: nat): (r: string)
    ensures |r| == n && AllLowerHex(r) && AllHex(r)
  {
    if n == 0 then [] else Render(k / 16, n - 1) + [HexDigit(k % 16)]
  }

  lemma {:induction false} HexValueRender(k: nat, n: nat)
    requires k < Pow16(n)
    ensures HexValue(Render(k, n)) == k
  {
    if n > 0 {
      var q, d := k / 16, k % 16;
      QuotientBound(k, n);
      HexValueRender(q, n - 1);
      var rest := Render(q, n - 1);
      HexValueSnoc(rest, HexDigit(d));
      assert 16 * q + d == k;
    }
  }

  /** A number below 16^n has its quotient by 16 below 16^(n-1). */
  lemma QuotientBound(k: nat, n: nat)
    requires n > 0 && k < Pow16(n)
    ensures k / 16 < Pow16(n - 1)
  {
    var p := Pow16(n - 1);
    assert k < 16 * p;
  }

  /** Appending a digit multiplies the value by 16 and adds the digit's value. */
  lemma HexValueSnoc(s: string, c: char)
    requires AllHex(s) && IsHexDigit(c)
    ensures AllHex(s + [c]) && HexValue(s + [c]) == 16 * HexValue(s) + HexDigitValue(c)
  {
    var t := s + [c];
    assert t[..|t| - 1] == s && t[|t| - 1] == c;
  }

  lemma {:induction false} RenderHexValue(s: string)
    requires AllHex(s)
    ensures Render(HexValue(s), |s|) == LowerHex(s)
  {
    if s != [] {
      var init := s[..|s| - 1];
      RenderHexValue(init);
      var c := s[|s| - 1];
      var v := HexValue(s);
      assert v / 16 == HexValue(init) && v % 16 == HexDigitValue(c);
      DigitOfValue(c);
      assert LowerHex(s) == LowerHex(init) + [LowerHexDigit(c)];
    }
  }

  /** Writing out a digit's value gives the digit's lowercase form. */
  lemma DigitOfValue(c: char)
    requires IsHexDigit(c)
    ensures HexDigit(HexDigitValue(c)) == LowerHexDigit(c)
  {
  }

  /** `str(ObjectId(..))` of the id numbered `k`. */
  function IdString(k: nat): (r: string)
    ensures |r| == IdLength && AllLowerHex(r)
  {
    Render(k, IdLength)
  }

  /** `ObjectId(s)` for a string `s`: the id when `s` is 24 hex digits, `None` where
      the constructor raises. */
  function ParseObjectId(s: string): (r: Option<nat>)
    ensures r.Some? <==> |s| == IdLength && AllHex(s)
    ensures r.Some? ==> r.value < IdSpace
  {
    if |s| == IdLength && AllHex(s) then Some(HexValue(s)) else None
  }

  /** Every id survives being written out and parsed back. */
  lemma ParseIdString(k: nat)
    requires k < IdSpace
    ensures ParseObjectId(IdString(k)) == Some(k)
  {
    HexValueRender(k, IdLength);
  }

  /** A parsed string writes back as its own lowercase form, so two strings name the
      same id exactly when they agree ignoring the case of their letters. */
  lemma IdStringOfParse(s: string)
    requires ParseObjectId(s).Some?
    ensures IdString(ParseObjectId(s).value) == LowerHex(s)
  {
    RenderHexValue(s);
  }

  /** Mixed-case input names the same id as its lowercase form. */
  lemma ParseIgnoresCase(s: string)
    requires AllHex(s)
    ensures ParseObjectId(LowerHex(s)) == ParseObjectId(s)
  {
    if |s| == IdLength {
      IdStringOfParse(s);
      ParseIdString(HexValue(s));
    }
  }
}
