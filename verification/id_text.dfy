/**
 Decimal text for ids, as JavaScript renders an integer-valued number, and
 the comma-separated id lists that `Array.prototype.join(', ')` produces;
 with a parser that reads such a list back, to show that the text loses nothing.
 */
module IdText {
  import opened Options

  predicate IsDigit(c: char) {
    '0' <= c <= '9'
  }

  predicate AllDigits(s: string) {
    forall i :: 0 <= i < |s| ==> IsDigit(s[i])
  }

  function DigitChar(d: nat): (c: char)
    requires d < 10
    ensures IsDigit(c)
  {
    (48 + d) as char
  }

  function DigitValue(c: char): (d: nat)
    requires IsDigit(c)
    ensures d < 10
  {
    (c as int) - 48
  }

  /** Decimal digits of `n`, most significant first, with no leading zero. */
  function NatToString(n: nat): (s: string)
    ensures |s| > 0 && AllDigits(s)
    decreases n
  {
    if n < 10 then [DigitChar(n)] else NatToString(n / 10) + [DigitChar(n % 10)]
  }

  /** The number that a string of decimal digits denotes. */
  function DigitsValue(s: string): nat
    requires AllDigits(s)
    decreases |s|
  {
    if |s| == 0 then 0 else DigitsValue(s[..|s| - 1]) * 10 + DigitValue(s[|s| - 1])
  }

  /** `String(n)` for an integer `n`: a minus sign, then the digits of `|n|`. */
  function IntToString(n: int): (s: string)
    ensures |s| > 0
  {
    if n < 0 then "-" + NatToString(-n) else NatToString(n)
  }

  /** `ids.join(', ')`: the ids' texts separated by a comma and a space; empty for no ids. */
  function JoinIds(ids: seq<int>): string
    decreases |ids|
  {
    if |ids| == 0 then ""
    else if |ids| == 1 then IntToString(ids[0])
    else IntToString(ids[0]) + ", " + JoinIds(ids[1..])
  }

  /** How many characters at the front of `s` are digits. */
  function LeadingDigits(s: string): (k: nat)
    ensures k <= |s|
    ensures AllDigits(s[..k])
    ensures k < |s| ==> !IsDigit(s[k])
    decreases |s|
  {
    if |s| > 0 && IsDigit(s[0]) then
      var k := 1 + LeadingDigits(s[1..]);
      assert s[..k] == [s[0]] + s[1..][..k - 1];
      k
    else 0
  }

  /** One integer read from the front of a text, and the text after it. */
  datatype Token = Token(value: int, rest: string)

  /** Reads a maximal run of digits as a number. */
  function ParseNat(s: string): (r: Option<Token>)
    ensures r.Some? ==> |r.value.rest| < |s|
  {
    var k := LeadingDigits(s);
    if k == 0 then None else Some(Token(DigitsValue(s[..k]), s[k..]))
  }

  /** Reads an optional minus sign and a maximal run of digits. */
  function ParseInt(s: string): (r: Option<Token>)
    ensures r.Some? ==> |r.value.rest| < |s|
  {
    if |s| > 0 && s[0] == '-' then
      match ParseNat(s[1..])
      case None => None
      case Some(Token(v, rest)) => Some(Token(-v, rest))
    else ParseNat(s)
  }

  /** Reads one or more integers separated by ", " that make up all of `s`. */
  function ParseIdList(s: string): Option<seq<int>>
    decreases |s|
  {
    match ParseInt(s)
    case None => None
    case Some(Token(n, rest)) =>
      if rest == "" then Some([n])
      else if |rest| >= 2 && rest[..2] == ", " then
        match ParseIdList(rest[2..])
        case None => None
        case Some(ns) => Some([n] + ns)
      else None
  }

  /** Reads back the text of `JoinIds`. */
  function ParseIds(s: string): Option<seq<int>>
  {
    if s == "" then Some([]) else ParseIdList(s)
  }

  lemma {:induction false} NatToStringValue(n: nat)
    ensures DigitsValue(NatToString(n)) == n
    decreases n
  {
    var s := NatToString(n);
    if n < 10 {
      assert s[..|s| - 1] == [];
    } else {
      NatToStringValue(n / 10);
      assert s[..|s| - 1] == NatToString(n / 10);
    }
  }

  lemma {:induction false} LeadingDigitsOfDigits(d: string, rest: string)
    requires AllDigits(d)
    requires rest == "" || !IsDigit(rest[0])
    ensures LeadingDigits(d + rest) == |d|
    decreases |d|
  {
    if |d| > 0 {
      assert (d + rest)[1..] == d[1..] + rest;
      LeadingDigitsOfDigits(d[1..], rest);
    } else {
      assert d + rest == rest;
    }
  }

  lemma ParseUnsigned(d: string, rest: string)
    requires |d| > 0 && AllDigits(d)
    requires rest == "" || rest[0] == ','
    ensures ParseNat(d + rest) == Some(Token(DigitsValue(d), rest))
  {
    var s := d + rest;
    LeadingDigitsOfDigits(d, rest);
    assert s[..|d|] == d;
    assert s[|d|..] == rest;
  }

  /** Reading the text of `n` gives back `n`, when a separator (or nothing) follows. */
  lemma ParseIntToString(n: int, rest: string)
    requires rest == "" || rest[0] == ','
    ensures ParseInt(IntToString(n) + rest) == Some(Token(n, rest))
  {
    var m: nat := if n < 0 then -n else n;
    var d := NatToString(m);
    NatToStringValue(m);
    ParseUnsigned(d, rest);
    var s := IntToString(n) + rest;
    if n < 0 {
      assert s[0] == '-' && s[1..] == d + rest;
    } else {
      assert s == d + rest && IsDigit(s[0]);
    }
  }

  /** The last step of `ParseIdList`: an integer that ends the text. */
  lemma ParseIdListLast(s: string, n: int)
    requires ParseInt(s) == Some(Token(n, ""))
    ensures ParseIdList(s) == Some([n])
  {
  }

  /** One step of `ParseIdList`: an integer, a separator, and a readable remainder. */
  lemma ParseIdListStep(s: string, n: int, tail: string, ns: seq<int>)
    requires ParseInt(s) == Some(Token(n, ", " + tail))
    requires ParseIdList(tail) == Some(ns)
    ensures ParseIdList(s) == Some([n] + ns)
  {
    var rest := ", " + tail;
    assert rest[..2] == ", " && rest[2..] == tail;
  }

  lemma JoinIdsSplit(ids: seq<int>)
    requires |ids| > 1
    ensures JoinIds(ids) == IntToString(ids[0]) + (", " + JoinIds(ids[1..]))
  {
  }

  lemma {:induction false} ParseIdListJoin(ids: seq<int>)
    requires |ids| > 0
    ensures ParseIdList(JoinIds(ids)) == Some(ids)
    decreases |ids|
  {
    var n := ids[0];
    var s := JoinIds(ids);
    if |ids| == 1 {
      assert s == IntToString(n) + "";
      ParseIntToString(n, "");
      ParseIdListLast(s, n);
      assert ids == [n];
    } else {
      var tail := JoinIds(ids[1..]);
      JoinIdsSplit(ids);
      ParseIntToString(n, ", " + tail);
      ParseIdListJoin(ids[1..]);
      ParseIdListStep(s, n, tail, ids[1..]);
      assert ids == [n] + ids[1..];
    }
  }

  /** The joined text determines the id list: reading it back gives the same ids in the same order. */
  lemma JoinIdsRoundTrip(ids: seq<int>)
    ensures ParseIds(JoinIds(ids)) == Some(ids)
  {
    if |ids| > 0 {
      ParseIdListJoin(ids);
    }
  }

  /** Two id lists with the same joined text are the same list. */
  lemma JoinIdsInjective(a: seq<int>, b: seq<int>)
    requires JoinIds(a) == JoinIds(b)
    ensures a == b
  {
    JoinIdsRoundTrip(a);
    JoinIdsRoundTrip(b);
  }
}
