/**
 * The part of Python's `str` that the post generator and the OCR assembly rely on:
 * `isspace`, `strip`, `lower`, `split(sep)`, `split()`, `sep.join(parts)` and `in`.
 * Strings are sequences of Unicode code points, as Python's are.
 */
module Text {

  /** Python's `str.isspace()` for one code point: the characters `strip()` and `split()` remove. */
  predicate IsSpace(c: char) {
    || '\t' <= c <= '\r'
    || '\U{1c}' <= c <= ' '
    || c == '\U{85}' || c == '\U{a0}' || c == '\U{1680}'
    || '\U{2000}' <= c <= '\U{200a}'
    || c == '\U{2028}' || c == '\U{2029}' || c == '\U{202f}' || c == '\U{205f}' || c == '\U{3000}'
  }

  predicate AllSpace(s: string) {
    forall i :: 0 <= i < |s| ==> IsSpace(s[i])
  }

  predicate NoSpace(s: string) {
    forall i :: 0 <= i < |s| ==> !IsSpace(s[i])
  }

  /** No whitespace at either end: the strings `strip()` returns. */
  predicate IsStripped(s: string) {
    s == [] || (!IsSpace(s[0]) && !IsSpace(s[|s| - 1]))
  }

  /** `s.lstrip()`: the suffix left after the leading whitespace. */
  function TrimLeft(s: string): (r: string)
    ensures |r| <= |s| && r == s[|s| - |r|..]
    ensures AllSpace(s[..|s| - |r|])
    ensures r == [] || !IsSpace(r[0])
  {
    if |s| > 0 && IsSpace(s[0]) then
      var r := TrimLeft(s[1..]);
      assert s[..|s| - |r|] == [s[0]] + s[1..][..|s| - 1 - |r|];
      assert s[|s| - |r|..] == s[1..][|s| - 1 - |r|..];
      r
    else s
  }

  /** `s.rstrip()`: the prefix left before the trailing whitespace. */
  function TrimRight(s: string): (r: string)
    ensures |r| <= |s| && r == s[..|r|]
    ensures AllSpace(s[|r|..])
    ensures r == [] || !IsSpace(r[|r| - 1])
  {
    if |s| > 0 && IsSpace(s[|s| - 1]) then
      var init := s[..|s| - 1];
      var r := TrimRight(init);
      assert s[|r|..] == init[|r|..] + [s[|s| - 1]];
      assert s[..|r|] == init[..|r|];
      r
    else s
  }

  /** `s.strip()` */
  function Strip(s: string): (r: string)
    ensures IsStripped(r)
    ensures |r| <= |s|
  {
    TrimRight(TrimLeft(s))
  }

  lemma {:induction false} TrimLeftPast(pre: string, rest: string)
    requires AllSpace(pre)
    ensures TrimLeft(pre + rest) == TrimLeft(rest)
  {
    if pre != [] {
      var s := pre + rest;
      assert s[0] == pre[0] && IsSpace(s[0]);
      assert s[1..] == pre[1..] + rest;
      TrimLeftPast(pre[1..], rest);
    } else {
      assert pre + rest == rest;
    }
  }

  lemma {:induction false} TrimRightPast(rest: string, post: string)
    requires AllSpace(post)
    ensures TrimRight(rest + post) == TrimRight(rest)
  {
    if post != [] {
      var post' := post[..|post| - 1];
      assert (rest + post)[..|rest + post| - 1] == rest + post';
      TrimRightPast(rest, post');
    } else {
      assert rest + post == rest;
    }
  }

  /**
   * `strip()` is determined by what it promises: whatever string is a stripped core
   * surrounded by whitespace, the core is what `strip()` returns.
   */
  lemma StripExactly(pre: string, core: string, post: string)
    requires AllSpace(pre) && AllSpace(post) && IsStripped(core)
    ensures Strip(pre + core + post) == core
  {
    assert pre + core + post == pre + (core + post);
    TrimLeftPast(pre, core + post);
    if core == [] {
      assert core + post == post;
      TrimLeftPast(post, []);
      assert post + [] == post;
    } else {
      TrimLeftNothing(core + post);
      TrimRightPast(core, post);
      TrimRightNothing(core);
    }
  }

  lemma TrimLeftNothing(s: string)
    requires s != [] && !IsSpace(s[0])
    ensures TrimLeft(s) == s
  {
  }

  lemma TrimRightNothing(s: string)
    requires s != [] && !IsSpace(s[|s| - 1])
    ensures TrimRight(s) == s
  {
  }

  /** `strip()` gives the empty string exactly on all-whitespace strings. */
  lemma StripEmptyIff(s: string)
    ensures Strip(s) == "" <==> AllSpace(s)
  {
    if AllSpace(s) {
      assert s + "" + "" == s;
      StripExactly(s, "", "");
    }
    if Strip(s) == "" {
      var i, j := StripDecomposes(s);
      Reassemble(s, i, j);
      assert AllSpace(s[..i] + s[i..j] + s[j..]);
    }
  }

  /** The strings `strip()` leaves alone are exactly the stripped ones. */
  lemma StripFixedIff(s: string)
    ensures Strip(s) == s <==> IsStripped(s)
  {
    if IsStripped(s) {
      assert [] + s + [] == s;
      StripExactly([], s, []);
    }
  }

  /** `strip()` takes a piece of its input and throws away only whitespace around it. */
  lemma StripDecomposes(s: string) returns (i: nat, j: nat)
    ensures i <= j <= |s|
    ensures s[i..j] == Strip(s)
    ensures AllSpace(s[..i]) && AllSpace(s[j..])
  {
    var t := TrimLeft(s);
    var r := TrimRight(t);
    i := |s| - |t|;
    j := i + |r|;
    assert t[|r|..] == s[j..];
  }

  lemma Reassemble(s: string, i: nat, j: nat)
    requires i <= j <= |s|
    ensures s == s[..i] + s[i..j] + s[j..]
  {
  }

  predicate IsUpper(c: char) {
    'A' <= c <= 'Z'
  }

  /** Lower-casing of one character (ASCII letters; every other character is kept). */
  function LowerChar(c: char): (d: char)
    ensures !IsUpper(d)
    ensures !IsUpper(c) ==> d == c
    ensures IsUpper(c) ==> d as int - 'a' as int == c as int - 'A' as int
  {
    if IsUpper(c) then (c as int - 'A' as int + 'a' as int) as char else c
  }

  /** `s.lower()` */
  function Lower(s: string): (r: string)
    ensures |r| == |s|
    ensures forall i :: 0 <= i < |s| ==> r[i] == LowerChar(s[i])
  {
    seq(|s|, i requires 0 <= i < |s| => LowerChar(s[i]))
  }

  predicate NoUpper(s: string) {
    forall i :: 0 <= i < |s| ==> !IsUpper(s[i])
  }

  /** Lower-casing leaves no upper-case letter and is idempotent. */
  lemma LowerIdempotent(s: string)
    ensures NoUpper(Lower(s))
    ensures Lower(Lower(s)) == Lower(s)
  {
  }

  /** A stripped lower-case string is its own normal form. */
  lemma NormalFormFixed(s: string)
    requires IsStripped(s) && NoUpper(s)
    ensures Lower(Strip(s)) == s
  {
    StripFixedIff(s);
    assert Lower(s) == s;
  }

  /** Lower-casing never turns whitespace into something else or the reverse. */
  lemma LowerKeepsSpace(s: string)
    ensures AllSpace(s) ==> AllSpace(Lower(s))
    ensures IsStripped(s) ==> IsStripped(Lower(s))
  {
  }

  /**
   * `s.split(sep)` for a non-empty separator: the pieces between the leftmost
   * non-overlapping occurrences of `sep`, scanning from the left.
   */
  function Split(s: string, sep: string): (r: seq<string>)
    requires |sep| > 0
    ensures |r| > 0
    decreases |s|
  {
    if |s| < |sep| then [s]
    else if s[..|sep|] == sep then [""] + Split(s[|sep|..], sep)
    else
      var rest := Split(s[1..], sep);
      [[s[0]] + rest[0]] + rest[1..]
  }

  /** `sep.join(parts)` */
  function Join(parts: seq<string>, sep: string): string {
    if |parts| == 0 then ""
    else if |parts| == 1 then parts[0]
    else parts[0] + sep + Join(parts[1..], sep)
  }

  lemma JoinCons(head: string, tail: seq<string>, sep: string)
    requires |tail| > 0
    ensures Join([head] + tail, sep) == head + sep + Join(tail, sep)
  {
    assert ([head] + tail)[1..] == tail;
  }

  /** With a non-empty separator the join is empty only for no parts or a single empty part. */
  lemma JoinEmptyIff(parts: seq<string>, sep: string)
    requires |sep| > 0
    ensures Join(parts, sep) == "" <==> |parts| == 0 || (|parts| == 1 && parts[0] == "")
  {
    if |parts| > 1 {
      assert |Join(parts, sep)| >= |sep|;
    }
  }

  /** Joining the pieces of a split with the same separator gives the string back. */
  lemma {:induction false} SplitJoin(s: string, sep: string)
    requires |sep| > 0
    ensures Join(Split(s, sep), sep) == s
    decreases |s|
  {
    if |s| < |sep| {
      assert Split(s, sep) == [s];
    } else if s[..|sep|] == sep {
      var rest := s[|sep|..];
      var pieces := Split(rest, sep);
      assert Split(s, sep) == [""] + pieces;
      SplitJoin(rest, sep);
      JoinCons("", pieces, sep);
      assert s == "" + sep + rest;
    } else {
      var pieces := Split(s[1..], sep);
      assert Split(s, sep) == [[s[0]] + pieces[0]] + pieces[1..];
      SplitJoin(s[1..], sep);
      JoinGrowFirst(s[0], pieces, sep);
      assert [s[0]] + s[1..] == s;
    }
  }

  /** Growing the first part by one character grows the joined string by that character in front. */
  lemma JoinGrowFirst(c: char, pieces: seq<string>, sep: string)
    requires |pieces| > 0
    ensures Join([[c] + pieces[0]] + pieces[1..], sep) == [c] + Join(pieces, sep)
  {
    if |pieces| > 1 {
      var tail := Join(pieces[1..], sep);
      JoinCons([c] + pieces[0], pieces[1..], sep);
      JoinCons(pieces[0], pieces[1..], sep);
      assert [pieces[0]] + pieces[1..] == pieces;
      assert ([c] + pieces[0]) + sep + tail == [c] + (pieces[0] + sep + tail);
    }
  }

  /** Splitting on a character gives pieces that do not contain it. */
  lemma {:induction false} SplitPiecesAvoid(s: string, c: char)
    ensures forall k :: 0 <= k < |Split(s, [c])| ==> c !in Split(s, [c])[k]
    decreases |s|
  {
    if |s| >= 1 {
      SplitPiecesAvoid(s[1..], c);
      if s[..1] == [c] {
        assert s[1..] == s[|[c]|..];
      }
    }
  }

  /** The first piece when the string starts with a separator-free part and then the separator. */
  lemma {:induction false} SplitAtFirst(a: string, c: char, rest: string)
    requires c !in a
    ensures Split(a + [c] + rest, [c]) == [a] + Split(rest, [c])
    decreases |a|
  {
    var s := a + [c] + rest;
    if a == [] {
      assert s[..1] == [c] && s[1..] == rest;
    } else {
      assert s[0] == a[0] != c;
      assert s[..1] != [c];
      assert s[1..] == a[1..] + [c] + rest;
      SplitAtFirst(a[1..], c, rest);
      assert [s[0]] + a[1..] == a;
    }
  }

  /** A string without the separator is a single piece. */
  lemma {:induction false} SplitNone(a: string, c: char)
    requires c !in a
    ensures Split(a, [c]) == [a]
    decreases |a|
  {
    if |a| >= 1 {
      assert a[0] != c;
      assert a[..1] != [c];
      SplitNone(a[1..], c);
      assert [a[0]] + a[1..] == a;
    }
  }

  /** Splitting undoes joining, when no part contains the separator character. */
  lemma {:induction false} JoinSplit(parts: seq<string>, c: char)
    requires |parts| > 0
    requires forall k :: 0 <= k < |parts| ==> c !in parts[k]
    ensures Split(Join(parts, [c]), [c]) == parts
  {
    if |parts| == 1 {
      SplitNone(parts[0], c);
    } else {
      JoinSplit(parts[1..], c);
      SplitAtFirst(parts[0], c, Join(parts[1..], [c]));
      assert [parts[0]] + parts[1..] == parts;
    }
  }

  /** The longest whitespace-free prefix of `s`. */
  function LeadingWord(s: string): (w: string)
    ensures |w| <= |s| && w == s[..|w|] && NoSpace(w)
    ensures |w| == |s| || IsSpace(s[|w|])
  {
    if |s| == 0 || IsSpace(s[0]) then [] else [s[0]] + LeadingWord(s[1..])
  }

  /** Every element is a non-empty run of non-whitespace characters. */
  predicate AreWords(ws: seq<string>) {
    ws == [] || (ws[0] != [] && NoSpace(ws[0]) && AreWords(ws[1..]))
  }

  /** `s.split()`: the maximal runs of non-whitespace characters, in order. */
  function Words(s: string): (ws: seq<string>)
    ensures AreWords(ws)
    decreases |s|
  {
    var t := TrimLeft(s);
    if t == [] then []
    else
      var w := LeadingWord(t);
      assert |w| > 0 by {
        assert |w| == |t| || IsSpace(t[|w|]);
      }
      var rest := Words(t[|w|..]);
      assert ([w] + rest)[1..] == rest;
      [w] + rest
  }

  lemma {:induction false} LeadingWordOf(w: string, rest: string)
    requires NoSpace(w)
    requires rest == [] || IsSpace(rest[0])
    ensures LeadingWord(w + rest) == w
  {
    if w != [] {
      assert (w + rest)[1..] == w[1..] + rest;
      LeadingWordOf(w[1..], rest);
    }
  }

  lemma WordsSingle(w: string)
    requires w != [] && NoSpace(w)
    ensures Words(w) == [w]
  {
    TrimLeftPast([], w);
    assert [] + w == w;
    LeadingWordOf(w, []);
    assert w + [] == w;
    assert w[|w|..] == [];
  }

  lemma WordsSkip(pre: string, x: string)
    requires AllSpace(pre)
    ensures Words(pre + x) == Words(x)
  {
    TrimLeftPast(pre, x);
  }

  lemma WordsFirst(w: string, rest: string)
    requires w != [] && NoSpace(w)
    requires rest == [] || IsSpace(rest[0])
    ensures Words(w + rest) == [w] + Words(rest)
  {
    var s := w + rest;
    TrimLeftPast([], s);
    assert [] + s == s;
    LeadingWordOf(w, rest);
    assert s[|w|..] == rest;
  }

  lemma WordsCons(w: string, sep: string, rest: string)
    requires w != [] && NoSpace(w)
    requires sep != [] && AllSpace(sep)
    ensures Words(w + sep + rest) == [w] + Words(rest)
  {
    assert w + sep + rest == w + (sep + rest);
    WordsFirst(w, sep + rest);
    WordsSkip(sep, rest);
  }

  lemma WordsOfJoinStep(w: string, tail: seq<string>, sep: string)
    requires w != [] && NoSpace(w)
    requires sep != [] && AllSpace(sep)
    requires |tail| > 0 && Words(Join(tail, sep)) == tail
    ensures Words(Join([w] + tail, sep)) == [w] + tail
  {
    JoinCons(w, tail, sep);
    WordsCons(w, sep, Join(tail, sep));
  }

  /** Space-joining whitespace-free words and splitting on whitespace gives the words back. */
  lemma {:induction false} WordsOfJoin(ws: seq<string>)
    requires AreWords(ws)
    ensures Words(Join(ws, " ")) == ws
  {
    if |ws| == 1 {
      WordsSingle(ws[0]);
    } else if |ws| > 1 {
      WordsOfJoin(ws[1..]);
      assert AllSpace(" ");
      WordsOfJoinStep(ws[0], ws[1..], " ");
      assert [ws[0]] + ws[1..] == ws;
    }
  }

  /** `sub in s`: `sub` occurs in `s` as a contiguous piece. */
  predicate Contains(s: string, sub: string)
    decreases |s|
  {
    sub <= s || (|s| > 0 && Contains(s[1..], sub))
  }

  lemma {:induction false} ContainsMiddle(pre: string, sub: string, post: string)
    ensures Contains(pre + sub + post, sub)
    decreases |pre|
  {
    if pre == [] {
      assert pre + sub + post == sub + post;
    } else {
      assert (pre + sub + post)[1..] == pre[1..] + sub + post;
      ContainsMiddle(pre[1..], sub, post);
    }
  }

  /** `b` is the tail of `a + b`. */
  lemma EndsWith(a: string, b: string)
    ensures |b| <= |a + b| && (a + b)[|a + b| - |b|..] == b
  {
  }

  /** `b + c` is the tail of `a + b + c`. */
  lemma EndsWithLastTwo(a: string, b: string, c: string)
    ensures |b + c| <= |a + b + c| && (a + b + c)[|a + b + c| - |b + c|..] == b + c
  {
    assert a + b + c == a + (b + c);
  }

  /** A text pieced together from five parts starts with the first, ends with the last and holds the second and fourth. */
  lemma FiveParts(a: string, b: string, c: string, d: string, e: string)
    ensures a <= a + b + c + d + e
    ensures Contains(a + b + c + d + e, b) && Contains(a + b + c + d + e, d)
    ensures |e| <= |a + b + c + d + e|
    ensures (a + b + c + d + e)[|a + b + c + d + e| - |e|..] == e
  {
    var s := a + b + c + d + e;
    assert s == a + b + (c + d + e);
    ContainsMiddle(a, b, c + d + e);
    ContainsMiddle(a + b + c, d, e);
    EndsWith(a + b + c + d, e);
  }
}
