/** Cleaning of the request identifier received by the accept handler:
    JavaScript's `trim()` followed by removal of every single and double quote
    (the global replacement of `['"]+` by the empty string). */
module RequestIds {

  /** The characters `String.prototype.trim` strips: the ECMAScript WhiteSpace
      and LineTerminator code points (tab, line feed, vertical tab, form feed,
      carriage return, the space separators of category Zs, line and
      paragraph separators, and the byte order mark). */
  predicate IsTrimmable(c: char) {
    var k := c as int;
    || (0x09 <= k <= 0x0D) || k == 0x20 || k == 0xA0 || k == 0x1680
    || (0x2000 <= k <= 0x200A) || k == 0x2028 || k == 0x2029
    || k == 0x202F || k == 0x205F || k == 0x3000 || k == 0xFEFF
  }

  predicate IsQuote(c: char) {
    c == '\'' || c == '"'
  }

  predicate AllTrimmable(s: string) {
    forall i :: 0 <= i < |s| ==> IsTrimmable(s[i])
  }

  predicate AllQuotes(s: string) {
    forall i :: 0 <= i < |s| ==> IsQuote(s[i])
  }

  predicate NoQuotes(s: string) {
    forall i :: 0 <= i < |s| ==> !IsQuote(s[i])
  }

  /** `s` without its leading trimmable characters: a suffix of `s` that does
      not start with one, and everything cut off is trimmable. */
  function TrimStart(s: string): (r: string)
    ensures |r| <= |s| && r == s[|s| - |r|..]
    ensures forall i :: 0 <= i < |s| - |r| ==> IsTrimmable(s[i])
    ensures r == [] || !IsTrimmable(r[0])
  {
    if s != [] && IsTrimmable(s[0]) then TrimStart(s[1..]) else s
  }

  /** `s` without its trailing trimmable characters: a prefix of `s` that does
      not end with one, and everything cut off is trimmable. */
  function TrimEnd(s: string): (r: string)
    ensures |r| <= |s| && r == s[..|r|]
    ensures forall i :: |r| <= i < |s| ==> IsTrimmable(s[i])
    ensures r == [] || !IsTrimmable(r[|r| - 1])
  {
    if s != [] && IsTrimmable(s[|s| - 1]) then TrimEnd(s[..|s| - 1]) else s
  }

  /** `String.prototype.trim`: neither end of the result is trimmable, the
      result consists of characters of `s`, and every character of `s` that is
      not trimmable is kept. */
  function Trim(s: string): (r: string)
    ensures r == [] || (!IsTrimmable(r[0]) && !IsTrimmable(r[|r| - 1]))
    ensures forall c :: c in r ==> c in s
    ensures forall c :: c in s && !IsTrimmable(c) ==> c in r
  {
    var t := TrimStart(s);
    var r := TrimEnd(t);
    TrimKeepsCore(s, t, r);
    r
  }

  /** A text cut from the middle of `s`, with only trimmable characters cut
      off on either side, keeps every other character of `s`. */
  lemma TrimKeepsCore(s: string, t: string, r: string)
    requires |t| <= |s| && t == s[|s| - |t|..]
    requires forall i :: 0 <= i < |s| - |t| ==> IsTrimmable(s[i])
    requires |r| <= |t| && r == t[..|r|]
    requires forall i :: |r| <= i < |t| ==> IsTrimmable(t[i])
    requires t == [] || !IsTrimmable(t[0])
    requires r == [] || !IsTrimmable(r[|r| - 1])
    ensures r == [] || (!IsTrimmable(r[0]) && !IsTrimmable(r[|r| - 1]))
    ensures forall c :: c in r ==> c in s
    ensures forall c :: c in s && !IsTrimmable(c) ==> c in r
  {
    var k := |s| - |t|;
    assert r != [] ==> r[0] == t[0];
    forall c | c in r ensures c in s {
      var i :| 0 <= i < |r| && r[i] == c;
      assert s[k + i] == c;
    }
    forall c | c in s && !IsTrimmable(c) ensures c in r {
      var i :| 0 <= i < |s| && s[i] == c;
      assert t[i - k] == c;
      assert r[i - k] == c;
    }
  }

  /** `s.replace(/['"]+/g, "")`: every quote is dropped, every other
      character is kept in order. */
  function RemoveQuotes(s: string): (r: string)
    ensures |r| <= |s|
    ensures NoQuotes(r)
    ensures forall c :: c in r <==> c in s && !IsQuote(c)
  {
    if s == [] then []
    else if IsQuote(s[0]) then RemoveQuotes(s[1..])
    else [s[0]] + RemoveQuotes(s[1..])
  }

  /** The cleaned request identifier of the accept handler: it holds no quote
      character, every character comes from the input, and every input
      character that is neither a quote nor trimmable survives. */
  function CleanId(requestId: string): (cleaned: string)
    ensures NoQuotes(cleaned)
    ensures forall c :: c in cleaned ==> c in requestId
    ensures forall c :: c in requestId && !IsQuote(c) && !IsTrimmable(c) ==> c in cleaned
  {
    RemoveQuotes(Trim(requestId))
  }

  lemma {:induction false} TrimStartSkips(w: string, t: string)
    requires AllTrimmable(w)
    requires t == [] || !IsTrimmable(t[0])
    ensures TrimStart(w + t) == t
  {
    if w != [] {
      assert (w + t)[1..] == w[1..] + t;
      TrimStartSkips(w[1..], t);
    }
  }

  lemma {:induction false} TrimEndSkips(t: string, w: string)
    requires AllTrimmable(w)
    requires t == [] || !IsTrimmable(t[|t| - 1])
    ensures TrimEnd(t + w) == t
    decreases |w|
  {
    if w != [] {
      assert (t + w)[..|t + w| - 1] == t + w[..|w| - 1];
      TrimEndSkips(t, w[..|w| - 1]);
    } else {
      assert t + w == t;
    }
  }

  /** Trimming removes exactly the padding: a text whose ends are not
      trimmable comes back unchanged from any trimmable padding. */
  lemma TrimUnpads(w1: string, t: string, w2: string)
    requires AllTrimmable(w1) && AllTrimmable(w2)
    requires t == [] || (!IsTrimmable(t[0]) && !IsTrimmable(t[|t| - 1]))
    ensures Trim(w1 + t + w2) == t
  {
    if t == [] {
      assert w1 + t + w2 == w1 + w2;
      TrimStartSkips(w1 + w2, []);
      assert w1 + w2 + [] == w1 + w2;
    } else {
      assert w1 + t + w2 == w1 + (t + w2);
      TrimStartSkips(w1, t + w2);
      TrimEndSkips(t, w2);
    }
  }

  /** Quote removal works piece by piece. */
  lemma {:induction false} RemoveQuotesAppend(a: string, b: string)
    ensures RemoveQuotes(a + b) == RemoveQuotes(a) + RemoveQuotes(b)
  {
    if a != [] {
      assert (a + b)[1..] == a[1..] + b;
      RemoveQuotesAppend(a[1..], b);
    } else {
      assert a + b == b;
    }
  }

  /** A text without quotes is left as it is, and a run of quotes vanishes. */
  lemma {:induction false} RemoveQuotesKeepsPlain(s: string)
    requires NoQuotes(s)
    ensures RemoveQuotes(s) == s
  {
    if s != [] {
      RemoveQuotesKeepsPlain(s[1..]);
      assert s == [s[0]] + s[1..];
    }
  }

  lemma {:induction false} RemoveQuotesDropsQuotes(q: string)
    requires AllQuotes(q)
    ensures RemoveQuotes(q) == []
  {
    if q != [] {
      RemoveQuotesDropsQuotes(q[1..]);
    }
  }

  /** Trimming a quoted identifier with padding outside the quotes leaves the
      quoted identifier. */
  lemma TrimQuoted(w1: string, q1: string, id: string, q2: string, w2: string)
    requires AllTrimmable(w1) && AllTrimmable(w2)
    requires AllQuotes(q1) && AllQuotes(q2)
    requires id != [] && !IsTrimmable(id[0]) && !IsTrimmable(id[|id| - 1])
    ensures Trim(w1 + q1 + id + q2 + w2) == q1 + id + q2
  {
    var core := q1 + id + q2;
    assert core[0] == if q1 == [] then id[0] else q1[0];
    assert core[|core| - 1] == if q2 == [] then id[|id| - 1] else q2[|q2| - 1];
    assert w1 + q1 + id + q2 + w2 == w1 + core + w2;
    TrimUnpads(w1, core, w2);
  }

  /** Removing the quotes around a quote-free text gives the text back. */
  lemma RemoveQuotesUnwraps(q1: string, id: string, q2: string)
    requires AllQuotes(q1) && AllQuotes(q2)
    requires NoQuotes(id)
    ensures RemoveQuotes(q1 + id + q2) == id
  {
    RemoveQuotesAppend(q1 + id, q2);
    RemoveQuotesAppend(q1, id);
    RemoveQuotesDropsQuotes(q1);
    RemoveQuotesDropsQuotes(q2);
    RemoveQuotesKeepsPlain(id);
  }

  /** The purpose of the cleaning: an identifier wrapped in quotes, with
      whitespace around the quotes, is recovered exactly. */
  lemma CleanIdUnwraps(w1: string, q1: string, id: string, q2: string, w2: string)
    requires AllTrimmable(w1) && AllTrimmable(w2)
    requires AllQuotes(q1) && AllQuotes(q2)
    requires NoQuotes(id) && id != []
    requires !IsTrimmable(id[0]) && !IsTrimmable(id[|id| - 1])
    ensures CleanId(w1 + q1 + id + q2 + w2) == id
  {
    TrimQuoted(w1, q1, id, q2, w2);
    RemoveQuotesUnwraps(q1, id, q2);
  }

  /** A text that starts and ends with a quote is not changed by trimming. */
  lemma TrimKeepsQuoted(s: string)
    requires s != [] && IsQuote(s[0]) && IsQuote(s[|s| - 1])
    ensures Trim(s) == s
  {
    assert [] + s + [] == s;
    TrimUnpads([], s, []);
  }

  /** A text with no quotes and no trimmable character at either end is
      already clean. */
  lemma CleanIdKeepsClean(s: string)
    requires NoQuotes(s)
    requires s == [] || (!IsTrimmable(s[0]) && !IsTrimmable(s[|s| - 1]))
    ensures CleanId(s) == s
  {
    assert [] + s + [] == s;
    TrimUnpads([], s, []);
    RemoveQuotesKeepsPlain(s);
  }

  /** Whitespace inside the quotes is not trimmed: trimming runs before the
      quotes are removed, so padding inside the quotes survives the
      cleaning. */
  lemma CleanIdKeepsInnerPadding(q: char, w: string, id: string)
    requires IsQuote(q)
    requires AllTrimmable(w) && NoQuotes(w)
    requires NoQuotes(id)
    ensures CleanId([q] + w + id + [q]) == w + id
  {
    var s := [q] + (w + id) + [q];
    assert [q] + w + id + [q] == s;
    TrimKeepsQuoted(s);
    assert NoQuotes(w + id);
    RemoveQuotesUnwraps([q], w + id, [q]);
  }
}
