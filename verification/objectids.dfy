/** Textual form of friend-record identifiers.

    The store issues record identifiers from a counter; a handler receives an
    identifier as text (a route parameter) and looks the record up by that
    text. The canonical text is the lowercase hexadecimal rendering of the
    number, so distinct records always have distinct canonical texts. The
    store reads hexadecimal digits in either case, so a text names the
    identifier whose canonical text it spells up to case. */
module ObjectIds {

  predicate IsHexChar(c: char) {
    ('0' <= c <= '9') || ('a' <= c <= 'f')
  }

  /** The lowercase hexadecimal digit for `d`. */
  function HexDigit(d: nat): (c: char)
    requires d < 16
    ensures IsHexChar(c)
  {
    if d < 10 then ('0' as int + d) as char else ('a' as int + (d - 10)) as char
  }

  /** Distinct digit values have distinct characters. */
  lemma HexDigitInjective(d: nat, e: nat)
    requires d < 16 && e < 16
    requires HexDigit(d) == HexDigit(e)
    ensures d == e
  {
    assert HexDigit(d) as int == HexDigit(e) as int;
  }

  /** The text of record identifier `n`: its hexadecimal digits, most
      significant first, without leading zeros. */
  function IdText(n: nat): (s: string)
    ensures |s| >= 1
    ensures n >= 16 ==> |s| >= 2
    ensures forall i :: 0 <= i < |s| ==> IsHexChar(s[i])
    ensures s[|s| - 1] == HexDigit(n % 16)
    decreases n
  {
    if n < 16 then [HexDigit(n)] else IdText(n / 16) + [HexDigit(n % 16)]
  }

  /** Two identifiers with the same text are the same identifier. */
  lemma {:induction false} IdTextInjective(m: nat, n: nat)
    requires IdText(m) == IdText(n)
    ensures m == n
    decreases n
  {
    var sm, sn := IdText(m), IdText(n);
    HexDigitInjective(m % 16, n % 16);
    if m >= 16 && n >= 16 {
      assert sm[..|sm| - 1] == IdText(m / 16);
      assert sn[..|sn| - 1] == IdText(n / 16);
      IdTextInjective(m / 16, n / 16);
    }
  }

  /** `c` with an upper-case hexadecimal letter written in lower case. */
  function LowerHexChar(c: char): (d: char)
    ensures 'A' <= c <= 'F' ==> d as int == c as int + 32
    ensures !('A' <= c <= 'F') ==> d == c
  {
    if 'A' <= c <= 'F' then (c as int + 32) as char else c
  }

  /** `c` with a lower-case hexadecimal letter written in upper case. */
  function UpperHexChar(c: char): (d: char)
    ensures 'a' <= c <= 'f' ==> d as int + 32 == c as int
    ensures !('a' <= c <= 'f') ==> d == c
  {
    if 'a' <= c <= 'f' then (c as int - 32) as char else c
  }

  /** The text with its hexadecimal letters folded to lower case. */
  function LowerHex(s: string): (t: string)
    ensures |t| == |s|
    ensures forall i :: 0 <= i < |s| ==> t[i] == LowerHexChar(s[i])
  {
    seq(|s|, i requires 0 <= i < |s| => LowerHexChar(s[i]))
  }

  /** The text with its hexadecimal letters written in upper case. */
  function UpperHex(s: string): (t: string)
    ensures |t| == |s|
    ensures forall i :: 0 <= i < |s| ==> t[i] == UpperHexChar(s[i])
  {
    seq(|s|, i requires 0 <= i < |s| => UpperHexChar(s[i]))
  }

  /** The text `text` names identifier `n`: it spells `n`'s canonical text,
      hexadecimal letters in either case. */
  predicate Names(text: string, n: nat) {
    LowerHex(text) == IdText(n)
  }

  /** The canonical text names its identifier. */
  lemma {:induction false} IdTextNames(n: nat)
    ensures Names(IdText(n), n)
  {
    var s := IdText(n);
    forall i | 0 <= i < |s|
      ensures LowerHex(s)[i] == s[i]
    {
      assert IsHexChar(s[i]);
    }
  }

  /** The upper-case spelling of an identifier names it too, so one
      identifier has several texts. */
  lemma {:induction false} UpperHexNames(n: nat)
    ensures Names(UpperHex(IdText(n)), n)
    ensures n % 16 >= 10 ==> UpperHex(IdText(n)) != IdText(n)
  {
    var s := IdText(n);
    var u := UpperHex(s);
    forall i | 0 <= i < |s|
      ensures LowerHex(u)[i] == s[i]
    {
      assert IsHexChar(s[i]);
    }
    if n % 16 >= 10 {
      assert u[|s| - 1] != s[|s| - 1];
    }
  }

  /** A text names at most one identifier. */
  lemma NamesUnique(text: string, m: nat, n: nat)
    requires Names(text, m) && Names(text, n)
    ensures m == n
  {
    IdTextInjective(m, n);
  }
}
