/**
  The post-processing of the language model's answer in `explain_with_gemini`:
  `"\n".join(response.text.strip().split("\n")[:5])`. The network call that
  produces the answer is outside the model; the answer text is an input.
 */
module Narrative {
  /** The slice `[:5]`: at most five pieces of the answer are kept. */
  const MaxLines: nat := 5

  /** Python 3's `str.isspace`, the set of characters `str.strip()` removes. */
  predicate IsSpace(c: char) {
    var n := c as int;
    (0x09 <= n <= 0x0D) || (0x1C <= n <= 0x20) || n == 0x85 || n == 0xA0 || n == 0x1680 ||
    (0x2000 <= n <= 0x200A) || n == 0x2028 || n == 0x2029 || n == 0x202F || n == 0x205F ||
    n == 0x3000
  }

  ghost predicate AllSpace(s: string) {
    forall i :: 0 <= i < |s| ==> IsSpace(s[i])
  }

  /** The number of newline characters in `s`. */
  function Newlines(s: string): nat {
    if s == [] then 0 else (if s[0] == '\n' then 1 else 0) + Newlines(s[1..])
  }

  /** How many whitespace characters open `s`. */
  function LeadingSpaces(s: string): (n: nat)
    ensures n <= |s| && AllSpace(s[..n])
    ensures n < |s| ==> !IsSpace(s[n])
  {
    if s != [] && IsSpace(s[0]) then 1 + LeadingSpaces(s[1..]) else 0
  }

  /** How many whitespace characters close `s`. */
  function TrailingSpaces(s: string): (n: nat)
    ensures n <= |s| && AllSpace(s[|s| - n..])
    ensures n < |s| ==> !IsSpace(s[|s| - n - 1])
  {
    if s != [] && IsSpace(s[|s| - 1]) then
      var init := s[..|s| - 1];
      var m := TrailingSpaces(init);
      assert s[|s| - (m + 1)..] == init[|init| - m..] + [s[|s| - 1]];
      m + 1
    else 0
  }

  /** `t` is the infix of `s` at `i`, and only whitespace surrounds it. */
  ghost predicate InfixAmidSpace(s: string, t: string, i: int) {
    0 <= i <= |s| - |t| && t == s[i..i + |t|] && AllSpace(s[..i]) && AllSpace(s[i + |t|..])
  }

  /**
    `str.strip()`: the infix of `s` left once the whitespace at both ends is
    removed; what remains neither starts nor ends with whitespace.
   */
  function Strip(s: string): (t: string)
    ensures t == [] || (!IsSpace(t[0]) && !IsSpace(t[|t| - 1]))
    ensures exists i :: InfixAmidSpace(s, t, i)
  {
    var l := LeadingSpaces(s);
    var r := TrailingSpaces(s[l..]);
    var t := s[l..|s| - r];
    assert s[l..][|s| - l - r..] == s[|s| - r..];
    assert InfixAmidSpace(s, t, l);
    t
  }

  /** `"\n".join(pieces)`. */
  function Join(pieces: seq<string>): string {
    if |pieces| == 0 then ""
    else if |pieces| == 1 then pieces[0]
    else pieces[0] + "\n" + Join(pieces[1..])
  }

  /** Joining a first piece in front of more pieces puts a newline between them. */
  lemma JoinCons(first: string, rest: seq<string>)
    requires rest != []
    ensures Join([first] + rest) == first + "\n" + Join(rest)
  {
    assert ([first] + rest)[1..] == rest;
  }

  /** The position of the first newline of `s`. */
  function NewlineIndex(s: string): (i: nat)
    requires '\n' in s
    ensures i < |s| && s[i] == '\n' && '\n' !in s[..i]
  {
    if s[0] == '\n' then 0 else 1 + NewlineIndex(s[1..])
  }

  /**
    `s.split("\n")`: the newline-free pieces between the newlines of `s`, one
    more than there are newlines (empty pieces included); joining them with
    newlines gives `s` back.
   */
  function Split(s: string): (pieces: seq<string>)
    ensures |pieces| == Newlines(s) + 1
    ensures forall i :: 0 <= i < |pieces| ==> '\n' !in pieces[i]
    ensures Join(pieces) == s
    decreases |s|
  {
    if '\n' !in s then
      NoNewlines(s);
      [s]
    else
      var i := NewlineIndex(s);
      var rest := Split(s[i + 1..]);
      assert s == s[..i] + "\n" + s[i + 1..];
      PrefixStep(s[..i], s[i + 1..], s[i + 1..]);
      JoinCons(s[..i], rest);
      [s[..i]] + rest
  }

  /**
    Joining the first `k` newline-free pieces gives a prefix of joining them
    all, with `k - 1` newlines, and when pieces remain a newline follows it.
   */
  lemma {:induction false} JoinPrefix(pieces: seq<string>, k: nat)
    requires 1 <= k <= |pieces|
    requires forall i :: 0 <= i < |pieces| ==> '\n' !in pieces[i]
    ensures Join(pieces[..k]) <= Join(pieces)
    ensures Newlines(Join(pieces[..k])) == k - 1
    ensures k < |pieces| ==>
      |Join(pieces[..k])| < |Join(pieces)| && Join(pieces)[|Join(pieces[..k])|] == '\n'
  {
    var p := pieces[0];
    NoNewlines(p);
    if k == 1 {
      assert pieces[..1] == [p];
      if 1 < |pieces| {
        assert pieces == [p] + pieces[1..];
        JoinCons(p, pieces[1..]);
      }
    } else {
      var tail := pieces[1..];
      JoinPrefix(tail, k - 1);
      assert pieces[..k] == [p] + tail[..k - 1];
      assert pieces == [p] + tail;
      JoinCons(p, tail[..k - 1]);
      JoinCons(p, tail);
      PrefixStep(p, Join(tail[..k - 1]), Join(tail));
    }
  }

  /**
    One more newline-free piece in front of a prefix and of the whole: still a
    prefix, one newline more, and the same character after it.
   */
  lemma PrefixStep(p: string, a: string, b: string)
    requires '\n' !in p && a <= b
    ensures p + "\n" + a <= p + "\n" + b
    ensures Newlines(p + "\n" + a) == Newlines(a) + 1
    ensures |a| < |b| ==> |p + "\n" + a| < |p + "\n" + b| && (p + "\n" + b)[|p + "\n" + a|] == b[|a|]
  {
    NoNewlines(p);
    NewlinesAppend(p, "\n");
    assert Newlines("\n") == 1;
    NewlinesAppend(p + "\n", a);
  }

  /** A text without a newline character counts none. */
  lemma {:induction false} NoNewlines(s: string)
    requires '\n' !in s
    ensures Newlines(s) == 0
  {
    if s != [] {
      assert s[0] in s;
      assert forall c :: c in s[1..] ==> c in s;
      NoNewlines(s[1..]);
    }
  }

  /** Newlines add up over concatenation. */
  lemma {:induction false} NewlinesAppend(a: string, b: string)
    ensures Newlines(a + b) == Newlines(a) + Newlines(b)
  {
    if a == [] {
      assert a + b == b;
    } else {
      assert (a + b)[1..] == a[1..] + b;
      NewlinesAppend(a[1..], b);
    }
  }

  /**
    `"\n".join(text.split("\n")[:5])`: the text cut before its fifth newline.
    The result is a prefix of the text with at most four newlines; a text of at
    most five pieces is kept whole, and a cut happens only just before a
    newline, after exactly four of them. Empty pieces count like any other.
   */
  function FirstLines(text: string): (e: string)
    ensures e <= text
    ensures Newlines(e) < MaxLines
    ensures Newlines(text) < MaxLines ==> e == text
    ensures e != text ==> Newlines(e) == MaxLines - 1 && text[|e|] == '\n'
  {
    var pieces := Split(text);
    var k := if |pieces| < MaxLines then |pieces| else MaxLines;
    JoinPrefix(pieces, k);
    assert k == |pieces| ==> pieces[..k] == pieces;
    Join(pieces[..k])
  }

  /**
    The explanation shown and printed: the first five lines of the stripped
    answer. It never starts with whitespace.
   */
  function Explanation(response: string): (e: string)
    ensures e == [] || !IsSpace(e[0])
    ensures e <= Strip(response)
    ensures Newlines(e) < MaxLines
    ensures Newlines(Strip(response)) < MaxLines ==> e == Strip(response)
    ensures e != Strip(response) ==>
      Newlines(e) == MaxLines - 1 && Strip(response)[|e|] == '\n'
  {
    FirstLines(Strip(response))
  }

  /** Stripping is idempotent. */
  lemma StripIdempotent(s: string)
    ensures Strip(Strip(s)) == Strip(s)
  {
    var t := Strip(s);
    if t != [] {
      assert LeadingSpaces(t) == 0;
      assert TrailingSpaces(t) == 0;
      assert t[0..][..|t|] == t;
    }
  }
}
