/** Joining a list of strings with a separator, as the array `join` of the
    line chart does, and splitting a string at a character, which undoes the
    join when the separator's first character occurs in none of the parts. */
module Strings {

  /** The parts in order with `sep` between neighbours; empty for no parts. */
  function Join(parts: seq<string>, sep: string): (s: string)
    ensures |parts| == 0 ==> s == ""
    ensures |parts| == 1 ==> s == parts[0]
    ensures |parts| > 0 ==> |s| >= |parts[0]| && s[..|parts[0]|] == parts[0]
  {
    if |parts| == 0 then ""
    else if |parts| == 1 then parts[0]
    else
      var init := parts[..|parts| - 1];
      assert init[0] == parts[0];
      Join(init, sep) + sep + parts[|parts| - 1]
  }

  /** The pieces of `s` between occurrences of `c`: one more piece than `s`
      has occurrences of `c`. */
  function Split(s: string, c: char): (pieces: seq<string>)
    ensures |pieces| >= 1
    ensures forall i :: 0 <= i < |pieces| ==> c !in pieces[i]
  {
    if |s| == 0 then [""]
    else
      var init := Split(s[..|s| - 1], c);
      var ch := s[|s| - 1];
      if ch == c then init + [""]
      else init[..|init| - 1] + [init[|init| - 1] + [ch]]
  }

  /** The front and the last element of a list with one element appended. */
  lemma DropLast<T>(ys: seq<T>, z: T)
    ensures (ys + [z])[..|ys|] == ys && (ys + [z])[|ys|] == z
  {
  }

  /** Appending a character other than `c` extends the last piece. */
  lemma SplitLastChar(s: string, ch: char, c: char)
    requires ch != c
    ensures Split(s + [ch], c)
            == Split(s, c)[..|Split(s, c)| - 1] + [Split(s, c)[|Split(s, c)| - 1] + [ch]]
  {
    assert (s + [ch])[..|s|] == s;
  }

  /** The last piece, and the pieces before it. */
  function LastPiece(s: string, c: char): string {
    Split(s, c)[|Split(s, c)| - 1]
  }

  function FrontPieces(s: string, c: char): seq<string> {
    Split(s, c)[..|Split(s, c)| - 1]
  }

  /** Appending text without `c` extends the last piece only. */
  lemma {:induction false} SplitAppend(a: string, b: string, c: char)
    requires c !in b
    ensures Split(a + b, c) == FrontPieces(a, c) + [LastPiece(a, c) + b]
    decreases |b|
  {
    if |b| == 0 {
      assert a + b == a;
      assert LastPiece(a, c) + b == LastPiece(a, c);
      assert Split(a, c) == FrontPieces(a, c) + [LastPiece(a, c)];
    } else {
      var b' := b[..|b| - 1];
      var ch := b[|b| - 1];
      assert b == b' + [ch];
      assert ch in b;
      assert c !in b';
      SplitAppend(a, b', c);
      SplitAppendStep(a, b', ch, c);
      assert a + b == (a + b') + [ch];
    }
  }

  /** One step of `SplitAppend`: one more character other than `c`. */
  lemma SplitAppendStep(a: string, b: string, ch: char, c: char)
    requires ch != c
    requires Split(a + b, c) == FrontPieces(a, c) + [LastPiece(a, c) + b]
    ensures Split((a + b) + [ch], c) == FrontPieces(a, c) + [LastPiece(a, c) + (b + [ch])]
  {
    SplitLastChar(a + b, ch, c);
    DropLast(FrontPieces(a, c), LastPiece(a, c) + b);
    assert (LastPiece(a, c) + b) + [ch] == LastPiece(a, c) + (b + [ch]);
  }

  /** Text without `c` after an occurrence of `c` is one new piece. */
  lemma SplitAfterSeparator(a: string, b: string, c: char)
    requires c !in b
    ensures Split(a + [c] + b, c) == Split(a, c) + [b]
  {
    var a' := a + [c];
    assert a'[..|a'| - 1] == a;
    SplitAppend(a', b, c);
    var pa := Split(a', c);
    assert pa == Split(a, c) + [""];
    assert pa[..|pa| - 1] == Split(a, c);
    assert "" + b == b;
  }

  /** Every string of `ps` preceded by `prefix`. */
  function PrefixEach(prefix: string, ps: seq<string>): (r: seq<string>)
    ensures |r| == |ps|
    ensures forall i :: 0 <= i < |ps| ==> r[i] == prefix + ps[i]
  {
    seq(|ps|, i requires 0 <= i < |ps| => prefix + ps[i])
  }

  /** Prefixing a list with one more element. */
  lemma PrefixEachAppend(prefix: string, ps: seq<string>, p: string)
    ensures PrefixEach(prefix, ps + [p]) == PrefixEach(prefix, ps) + [prefix + p]
  {
  }

  /** Splitting undoes joining:
      when the separator's first character `c`
      occurs neither in any part nor in the rest of the separator, the
      pieces are the first part followed by each later part preceded by the
      rest of the separator. */
  lemma {:induction false} SplitJoin(parts: seq<string>, c: char, rest: string)
    requires |parts| >= 1
    requires c !in rest
    requires forall i :: 0 <= i < |parts| ==> c !in parts[i]
    ensures Split(Join(parts, [c] + rest), c)
            == [parts[0]] + PrefixEach(rest, parts[1..])
    decreases |parts|
  {
    if |parts| == 1 {
      SplitOnePart(parts, c, rest);
    } else {
      var init := parts[..|parts| - 1];
      assert forall i :: 0 <= i < |init| ==> init[i] == parts[i];
      SplitJoin(init, c, rest);
      SplitJoinStep(init, parts[|parts| - 1], parts, c, rest);
    }
  }

  /** A single part without `c` splits into itself. */
  lemma SplitOnePart(parts: seq<string>, c: char, rest: string)
    requires |parts| == 1 && c !in parts[0]
    ensures Split(Join(parts, [c] + rest), c) == [parts[0]] + PrefixEach(rest, parts[1..])
  {
    var p := parts[0];
    assert "" + p == p;
    SplitAppend("", p, c);
    assert parts[1..] == [];
  }

  /** One step of `SplitJoin`: one more part. */
  lemma SplitJoinStep(init: seq<string>, p: string, parts: seq<string>, c: char, rest: string)
    requires parts == init + [p]
    requires |init| >= 1 && c !in rest && c !in p
    requires Split(Join(init, [c] + rest), c) == [init[0]] + PrefixEach(rest, init[1..])
    ensures Split(Join(parts, [c] + rest), c) == [parts[0]] + PrefixEach(rest, parts[1..])
  {
    var sep := [c] + rest;
    assert parts[..|parts| - 1] == init;
    assert Join(parts, sep) == Join(init, sep) + [c] + (rest + p);
    assert c !in rest + p;
    SplitAfterSeparator(Join(init, sep), rest + p, c);
    assert parts[1..] == init[1..] + [p];
    PrefixEachAppend(rest, init[1..], p);
  }
}
