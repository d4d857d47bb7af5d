/** The few Python `str` operations the pipeline relies on, over `string` (a sequence of
    Unicode scalar values): `lower`, `partition`, `isdigit`, `strip`, `split` and `join`. */
module Text {

  /** Python's `str.isspace()` for one character: the characters `str.strip()` removes. */
  predicate IsSpace(c: char) {
    || ('\t' <= c <= '\r')
    || ('\U{1C}' <= c <= '\U{1F}')
    || c == ' '
    || c == '\U{85}'
    || c == '\U{A0}'
    || c == '\U{1680}'
    || ('\U{2000}' <= c <= '\U{200A}')
    || c == '\U{2028}'
    || c == '\U{2029}'
    || c == '\U{202F}'
    || c == '\U{205F}'
    || c == '\U{3000}'
  }

  predicate IsAsciiLetter(c: char) {
    ('A' <= c <= 'Z') || ('a' <= c <= 'z')
  }

  predicate IsAsciiDigit(c: char) {
    '0' <= c <= '9'
  }

  /** `str.lower()` for one character, on the ASCII letters. */
  function LowerChar(c: char): (r: char)
    ensures 'A' <= c <= 'Z' ==> 'a' <= r <= 'z' && r as int - c as int == 32
    ensures !('A' <= c <= 'Z') ==> r == c
  {
    if 'A' <= c <= 'Z' then (c as int + 32) as char else c
  }

  /** `s.lower()`: the same length, each character lower-cased in place. */
  function Lower(s: string): (r: string)
    ensures |r| == |s|
    ensures forall i :: 0 <= i < |s| ==> r[i] == LowerChar(s[i])
  {
    seq(|s|, i requires 0 <= i < |s| => LowerChar(s[i]))
  }

  /** Lower-casing works character by character, so it distributes over concatenation. */
  lemma LowerConcat(a: string, b: string)
    ensures Lower(a + b) == Lower(a) + Lower(b)
  {
    assert forall i :: 0 <= i < |a + b| ==> Lower(a + b)[i] == (Lower(a) + Lower(b))[i];
  }

  lemma LowerAround(a: string, mid: string, b: string)
    requires mid == Lower(mid)
    ensures Lower(a + mid + b) == Lower(a) + mid + Lower(b)
  {
    LowerConcat(a + mid, b);
    LowerConcat(a, mid);
  }

  /** Lower-casing never produces a character that is not an ASCII letter unless it was
      already there. */
  lemma LowerKeepsAbsent(s: string, c: char)
    requires c !in s && !IsAsciiLetter(c)
    ensures c !in Lower(s)
  {
    forall i | 0 <= i < |s| ensures Lower(s)[i] != c {
      assert s[i] in s;
    }
  }

  /** Text without ASCII capitals is its own lower-case form. */
  lemma LowerOfLowerCase(s: string)
    requires forall i :: 0 <= i < |s| ==> !('A' <= s[i] <= 'Z')
    ensures Lower(s) == s
  {
  }

  /** The position of the first `c` in `s`, or `|s|` when `c` does not occur. */
  function IndexOf(s: string, c: char): (i: nat)
    ensures i <= |s|
    ensures i < |s| ==> s[i] == c
    ensures forall j :: 0 <= j < i ==> s[j] != c
  {
    if s == [] then 0 else if s[0] == c then 0 else 1 + IndexOf(s[1..], c)
  }

  lemma {:induction false} IndexOfAbsent(s: string, c: char)
    requires c !in s
    ensures IndexOf(s, c) == |s|
  {
    if s != [] {
      assert s[0] in s;
      IndexOfAbsent(s[1..], c);
    }
  }

  lemma {:induction false} IndexOfAfter(a: string, c: char, b: string)
    requires c !in a
    ensures IndexOf(a + [c] + b, c) == |a|
  {
    if a != [] {
      assert a[0] in a;
      assert (a + [c] + b)[1..] == a[1..] + [c] + b;
      IndexOfAfter(a[1..], c, b);
    }
  }

  /** `s.partition(sep)` without its middle part: the text before the first `sep` and the
      text after it; when `sep` does not occur, all of `s` and the empty string. */
  function Partition(s: string, sep: char): (r: (string, string))
    ensures sep !in r.0
    ensures sep in s ==> r.0 + [sep] + r.1 == s
    ensures sep !in s ==> r.0 == s && r.1 == ""
  {
    var i := IndexOf(s, sep);
    if i == |s| then
      assert sep !in s;
      (s, "")
    else
      assert s[..i] + [sep] + s[i + 1..] == s;
      (s[..i], s[i + 1..])
  }

  /** Python's `s.isdigit()` on ASCII: non-empty and made of decimal digits only. */
  predicate IsDigits(s: string) {
    |s| > 0 && forall i :: 0 <= i < |s| ==> IsAsciiDigit(s[i])
  }

  /** `s.lstrip()`: removes the longest prefix of whitespace. */
  function TrimStart(s: string): (r: string)
    ensures |r| <= |s| && r == s[|s| - |r|..]
    ensures forall k :: 0 <= k < |s| - |r| ==> IsSpace(s[k])
    ensures r == [] || !IsSpace(r[0])
  {
    if s != [] && IsSpace(s[0]) then TrimStart(s[1..]) else s
  }

  /** `s.rstrip()`: removes the longest suffix of whitespace. */
  function TrimEnd(s: string): (r: string)
    ensures |r| <= |s| && r == s[..|r|]
    ensures forall k :: |r| <= k < |s| ==> IsSpace(s[k])
    ensures r == [] || !IsSpace(r[|r| - 1])
  {
    if s != [] && IsSpace(s[|s| - 1]) then TrimEnd(s[..|s| - 1]) else s
  }

  /** `s.strip()`: what is left has no whitespace at either end. */
  function Strip(s: string): (r: string)
    ensures r == [] || (!IsSpace(r[0]) && !IsSpace(r[|r| - 1]))
  {
    TrimEnd(TrimStart(s))
  }

  /** Stripping only removes characters: one absent before is absent after. */
  lemma StripKeepsAbsent(s: string, c: char)
    requires c !in s
    ensures c !in Strip(s)
  {
    var t := TrimStart(s);
    var r := TrimEnd(t);
    forall k | 0 <= k < |r| ensures r[k] != c {
      assert r[k] == t[k] == s[|s| - |t| + k];
    }
  }

  /** Stripping a string that has no whitespace at its ends, after whitespace `pad`,
      gives back that string. */
  lemma {:induction false} StripPadded(pad: string, x: string)
    requires forall k :: 0 <= k < |pad| ==> IsSpace(pad[k])
    requires x == [] || (!IsSpace(x[0]) && !IsSpace(x[|x| - 1]))
    ensures Strip(pad + x) == x
  {
    if pad == [] {
      assert pad + x == x;
    } else {
      assert (pad + x)[1..] == pad[1..] + x;
      StripPadded(pad[1..], x);
    }
  }

  /** `sep.join(xs)`. */
  function Join(xs: seq<string>, sep: string): string {
    if xs == [] then "" else if |xs| == 1 then xs[0] else xs[0] + sep + Join(xs[1..], sep)
  }

  /** `s.split(sep)` for a one-character separator: the pieces between separators, with
      no separator in any piece, joined back by `sep` to `s`. */
  function Split(s: string, sep: char): (r: seq<string>)
    ensures |r| >= 1
    ensures forall k :: 0 <= k < |r| ==> sep !in r[k]
    ensures Join(r, [sep]) == s
    decreases |s|
  {
    var i := IndexOf(s, sep);
    if i == |s| then
      [s]
    else
      var rest := Split(s[i + 1..], sep);
      assert ([s[..i]] + rest)[1..] == rest;
      assert s[..i] + [sep] + s[i + 1..] == s;
      [s[..i]] + rest
  }

  /** Text without the separator is one piece. */
  lemma SplitNone(a: string, sep: char)
    requires sep !in a
    ensures Split(a, sep) == [a]
  {
    IndexOfAbsent(a, sep);
  }

  /** Splitting at the first separator: the text before it is the first piece. */
  lemma SplitAt(a: string, sep: char, b: string)
    requires sep !in a
    ensures Split(a + [sep] + b, sep) == [a] + Split(b, sep)
  {
    var s := a + [sep] + b;
    IndexOfAfter(a, sep, b);
    assert s[..|a|] == a;
    assert s[|a| + 1..] == b;
  }

  /** Splitting `q + sep'.join(xs)` where `sep' = [sep] + pad`: the first piece is `q + xs[0]`
      and every later piece is `pad + xs[k]`, provided nothing but the joins holds `sep`. */
  lemma {:induction false} SplitJoined(q: string, xs: seq<string>, sep: char, pad: string)
    requires xs != []
    requires sep !in q && sep !in pad
    requires forall k :: 0 <= k < |xs| ==> sep !in xs[k]
    ensures |Split(q + Join(xs, [sep] + pad), sep)| == |xs|
    ensures Split(q + Join(xs, [sep] + pad), sep)[0] == q + xs[0]
    ensures forall k :: 1 <= k < |xs| ==> Split(q + Join(xs, [sep] + pad), sep)[k] == pad + xs[k]
    decreases |xs|
  {
    var head := q + xs[0];
    assert sep !in head by {
      ConcatKeepsAbsent(q, xs[0], sep);
    }
    if |xs| == 1 {
      assert q + Join(xs, [sep] + pad) == head;
      SplitNone(head, sep);
    } else {
      var rest := Join(xs[1..], [sep] + pad);
      assert q + Join(xs, [sep] + pad) == head + [sep] + (pad + rest);
      SplitAt(head, sep, pad + rest);
      var later := Split(pad + rest, sep);
      SplitJoined(pad, xs[1..], sep, pad);
      forall k | 1 <= k < |xs| ensures later[k - 1] == pad + xs[k] {
        assert xs[1..][k - 1] == xs[k];
      }
    }
  }

  /** A character absent from two strings is absent from their concatenation. */
  lemma ConcatKeepsAbsent(a: string, b: string, c: char)
    requires c !in a && c !in b
    ensures c !in a + b
  {
  }
}
