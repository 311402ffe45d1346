/** The parts of `java.lang.String` that request assembly relies on:
    `split` with a one-character literal separator, `trim`, `toUpperCase`,
    and the emptiness/blankness tests of the project's `StringUtils`. */
module Strings {

  /** A string made of `n` copies of `c`. */
  function Repeat(c: char, n: nat): (r: string)
    ensures |r| == n
    ensures forall k :: 0 <= k < n ==> r[k] == c
  {
    seq(n, _ => c)
  }

  /** Position of the first occurrence of `c` in `s`. */
  function IndexOf(s: string, c: char): (i: nat)
    requires c in s
    ensures i < |s| && s[i] == c
    ensures c !in s[..i]
  {
    if s[0] == c then 0
    else
      var j := IndexOf(s[1..], c);
      assert s[..j + 1] == [s[0]] + s[1..][..j];
      j + 1
  }

  lemma {:induction false} IndexOfAfterPrefix(a: string, b: string, c: char)
    requires c !in a
    ensures c in a + [c] + b
    ensures IndexOf(a + [c] + b, c) == |a|
    decreases |a|
  {
    var s := a + [c] + b;
    assert s[|a|] == c;
    if |a| > 0 {
      assert a[0] in a;
      assert s[1..] == a[1..] + [c] + b;
      IndexOfAfterPrefix(a[1..], b, c);
    }
  }

  lemma {:induction false} IndexOfInPrefix(a: string, b: string, c: char)
    requires c in a
    ensures IndexOf(a + b, c) == IndexOf(a, c)
    decreases |a|
  {
    var s := a + b;
    if a[0] != c {
      assert s[1..] == a[1..] + b;
      assert c in a[1..] by {
        var k :| 0 <= k < |a| && a[k] == c;
        assert a[1..][k - 1] == c;
      }
      IndexOfInPrefix(a[1..], b, c);
    }
  }

  /** Every piece between occurrences of `c`, empty pieces included:
      `s` with `k` separators gives `k + 1` pieces. */
  function Split(s: string, c: char): (r: seq<string>)
    ensures |r| >= 1
    ensures forall k :: 0 <= k < |r| ==> c !in r[k]
    decreases |s|
  {
    if c !in s then [s]
    else
      var i := IndexOf(s, c);
      [s[..i]] + Split(s[i + 1..], c)
  }

  /** The pieces with exactly one `c` between consecutive pieces. */
  function Join(pieces: seq<string>, c: char): string
  {
    if |pieces| == 0 then ""
    else if |pieces| == 1 then pieces[0]
    else pieces[0] + [c] + Join(pieces[1..], c)
  }

  lemma {:induction false} JoinSnoc(pieces: seq<string>, x: string, c: char)
    requires |pieces| >= 1
    ensures Join(pieces + [x], c) == Join(pieces, c) + [c] + x
    decreases |pieces|
  {
    if |pieces| > 1 {
      assert (pieces + [x])[1..] == pieces[1..] + [x];
      JoinSnoc(pieces[1..], x, c);
    }
  }

  /** Splitting and joining again gives back the original string. */
  lemma {:induction false} JoinSplit(s: string, c: char)
    ensures Join(Split(s, c), c) == s
    decreases |s|
  {
    if c in s {
      var i := IndexOf(s, c);
      var rest := Split(s[i + 1..], c);
      JoinSplit(s[i + 1..], c);
      assert Split(s, c) == [s[..i]] + rest;
      assert ([s[..i]] + rest)[1..] == rest;
      assert s == s[..i] + [c] + s[i + 1..];
    }
  }

  /** The pieces of each fragment, in fragment order. */
  function SplitEach(fragments: seq<string>, c: char): seq<string>
  {
    if |fragments| == 0 then [] else Split(fragments[0], c) + SplitEach(fragments[1..], c)
  }

  /** A separator between two strings separates their pieces. */
  lemma {:induction false} SplitAround(x: string, y: string, c: char)
    ensures Split(x + [c] + y, c) == Split(x, c) + Split(y, c)
    decreases |x|
  {
    if c !in x {
      SplitAtFirst(x, y, c);
    } else {
      var i := IndexOf(x, c);
      var tail := x[i + 1..];
      SplitBeforeFirst(x, y, c);
      SplitAround(tail, y, c);
      var h, a, b := [x[..i]], Split(tail, c), Split(y, c);
      assert h + (a + b) == (h + a) + b;
    }
  }

  /** With no separator in `x`, the separator after `x` ends the first piece. */
  lemma SplitAtFirst(x: string, y: string, c: char)
    requires c !in x
    ensures Split(x + [c] + y, c) == [x] + Split(y, c)
  {
    var s := x + [c] + y;
    IndexOfAfterPrefix(x, y, c);
    assert s[..|x|] == x && s[|x| + 1..] == y;
  }

  /** With a separator in `x`, the first piece ends inside `x`. */
  lemma SplitBeforeFirst(x: string, y: string, c: char)
    requires c in x
    ensures var i := IndexOf(x, c);
      Split(x + [c] + y, c) == [x[..i]] + Split(x[i + 1..] + [c] + y, c)
  {
    var s := x + [c] + y;
    var i := IndexOf(x, c);
    assert IndexOf(s, c) == i by {
      assert s == x + ([c] + y);
      IndexOfInPrefix(x, [c] + y, c);
    }
    assert s[..i] == x[..i];
    assert s[i + 1..] == x[i + 1..] + [c] + y;
  }

  /** The pieces of joined fragments are the fragments' own pieces, in order. */
  lemma {:induction false} SplitJoinEach(fragments: seq<string>, c: char)
    requires |fragments| >= 1
    ensures Split(Join(fragments, c), c) == SplitEach(fragments, c)
    decreases |fragments|
  {
    if |fragments| > 1 {
      SplitAround(fragments[0], Join(fragments[1..], c), c);
      SplitJoinEach(fragments[1..], c);
    }
  }

  /** Joining pieces that hold no separator and splitting again gives back the pieces. */
  lemma {:induction false} SplitJoin(pieces: seq<string>, c: char)
    requires |pieces| >= 1
    requires forall k :: 0 <= k < |pieces| ==> c !in pieces[k]
    ensures Split(Join(pieces, c), c) == pieces
  {
    SplitJoinEach(pieces, c);
    SplitEachSingletons(pieces, c);
  }

  lemma {:induction false} SplitEachSingletons(pieces: seq<string>, c: char)
    requires forall k :: 0 <= k < |pieces| ==> c !in pieces[k]
    ensures SplitEach(pieces, c) == pieces
    decreases |pieces|
  {
    if |pieces| > 0 {
      SplitEachSingletons(pieces[1..], c);
    }
  }

  /** The pieces with every trailing empty piece removed. */
  function DropTrailingEmpty(pieces: seq<string>): (r: seq<string>)
    ensures |r| <= |pieces| && r == pieces[..|r|]
    ensures forall k :: |r| <= k < |pieces| ==> pieces[k] == ""
    ensures |r| == 0 || r[|r| - 1] != ""
  {
    if |pieces| > 0 && pieces[|pieces| - 1] == "" then DropTrailingEmpty(pieces[..|pieces| - 1])
    else pieces
  }

  lemma {:induction false} JoinDropTrailingEmpty(pieces: seq<string>, c: char)
    requires |pieces| >= 1
    ensures exists n: nat :: Join(pieces, c) == Join(DropTrailingEmpty(pieces), c) + Repeat(c, n)
    decreases |pieces|
  {
    var last := pieces[|pieces| - 1];
    if last != "" {
      assert Join(pieces, c) == Join(DropTrailingEmpty(pieces), c) + Repeat(c, 0);
    } else if |pieces| == 1 {
      assert Join(pieces, c) == Join(DropTrailingEmpty(pieces), c) + Repeat(c, 0);
    } else {
      var init := pieces[..|pieces| - 1];
      assert pieces == init + [last];
      JoinSnoc(init, last, c);
      JoinDropTrailingEmpty(init, c);
      var n: nat :| Join(init, c) == Join(DropTrailingEmpty(init), c) + Repeat(c, n);
      assert Repeat(c, n) + [c] == Repeat(c, n + 1);
      assert Join(pieces, c) == Join(DropTrailingEmpty(pieces), c) + Repeat(c, n + 1);
    }
  }

  /** Java's `String.split(sep)` for a one-character literal separator (limit 0):
      no match gives the whole string as the only piece, even when it is empty;
      otherwise the pieces come without the trailing empty ones. */
  function JavaSplit(s: string, c: char): (r: seq<string>)
    ensures forall k :: 0 <= k < |r| ==> c !in r[k]
    ensures c !in s ==> r == [s]
    ensures c in s ==> |r| == 0 || r[|r| - 1] != ""
  {
    if c !in s then [s] else DropTrailingEmpty(Split(s, c))
  }

  /** Joining the pieces of `split` again gives back the string up to the
      separators that ended it. */
  lemma JavaSplitRejoin(s: string, c: char)
    ensures exists n: nat :: s == Join(JavaSplit(s, c), c) + Repeat(c, n)
  {
    if c !in s {
      assert s == Join([s], c) + Repeat(c, 0);
    } else {
      JoinSplit(s, c);
      JoinDropTrailingEmpty(Split(s, c), c);
    }
  }

  lemma NonEmptyHasSeparator(t: string, c: char)
    requires forall j :: 0 <= j < |t| ==> t[j] == c
    ensures |t| > 0 ==> c in t
  {
    assert |t| == 0 || t[0] == c;
  }

  /** Pieces whose join is nothing but separators are all empty. */
  lemma {:induction false} SeparatorsOnlyJoin(pieces: seq<string>, c: char)
    requires forall k :: 0 <= k < |pieces| ==> c !in pieces[k]
    requires forall j :: 0 <= j < |Join(pieces, c)| ==> Join(pieces, c)[j] == c
    ensures forall k :: 0 <= k < |pieces| ==> pieces[k] == ""
    decreases |pieces|
  {
    if |pieces| > 0 {
      var s := Join(pieces, c);
      if |pieces| > 1 {
        var rest := Join(pieces[1..], c);
        assert s == pieces[0] + [c] + rest;
        assert forall j :: 0 <= j < |rest| ==> rest[j] == s[|pieces[0]| + 1 + j];
        SeparatorsOnlyJoin(pieces[1..], c);
      }
      assert forall j :: 0 <= j < |pieces[0]| ==> pieces[0][j] == s[j];
      NonEmptyHasSeparator(pieces[0], c);
    }
  }

  /** A non-empty string made of the separator only. */
  predicate OnlySeparators(s: string, c: char)
  {
    |s| > 0 && forall k :: 0 <= k < |s| ==> s[k] == c
  }

  /** `split` yields no piece at all exactly when the string is nothing but separators. */
  lemma JavaSplitEmpty(s: string, c: char)
    ensures JavaSplit(s, c) == [] <==> OnlySeparators(s, c)
  {
    var r := JavaSplit(s, c);
    JavaSplitRejoin(s, c);
    var n: nat :| s == Join(r, c) + Repeat(c, n);
    if r == [] {
      assert s == Repeat(c, n);
      assert c in s;
    }
    if |s| > 0 && forall k :: 0 <= k < |s| ==> s[k] == c {
      var j := Join(r, c);
      assert forall i :: 0 <= i < |j| ==> j[i] == s[i];
      SeparatorsOnlyJoin(r, c);
    }
  }

  /** Some separator is followed, somewhere later, by a character that is not one. */
  predicate SeparatorThenText(s: string, c: char)
  {
    exists i, j :: 0 <= i < j < |s| && s[i] == c && s[j] != c
  }

  /** `split` yields more than one piece exactly when some separator is
      followed, somewhere later, by another character. */
  lemma JavaSplitSeveral(s: string, c: char)
    ensures |JavaSplit(s, c)| > 1 <==> SeparatorThenText(s, c)
  {
    var r := JavaSplit(s, c);
    JavaSplitRejoin(s, c);
    var n: nat :| s == Join(r, c) + Repeat(c, n);
    if |r| > 1 {
      var init := r[..|r| - 1];
      var last := r[|r| - 1];
      assert r == init + [last];
      JoinSnoc(init, last, c);
      var i := |Join(init, c)|;
      assert s == Join(init, c) + [c] + last + Repeat(c, n);
      assert s[i] == c && s[i + 1] == last[0];
    } else if |r| == 0 {
      JavaSplitEmpty(s, c);
    } else {
      var head := r[0];
      assert s == head + Repeat(c, n);
      assert forall i :: 0 <= i < |head| ==> s[i] == head[i];
      assert forall j :: |head| <= j < |s| ==> s[j] == c;
    }
  }

  /** Joining pieces free of the separator, the last one non-empty, and splitting
      again with Java's `split` gives back the pieces. */
  lemma JavaSplitJoin(pieces: seq<string>, c: char)
    requires |pieces| >= 1
    requires forall k :: 0 <= k < |pieces| ==> c !in pieces[k]
    requires pieces[|pieces| - 1] != ""
    ensures JavaSplit(Join(pieces, c), c) == pieces
  {
    var s := Join(pieces, c);
    if |pieces| == 1 {
      assert s == pieces[0];
    } else {
      assert s == pieces[0] + [c] + Join(pieces[1..], c);
      assert s[|pieces[0]|] == c;
      SplitJoin(pieces, c);
    }
  }

  /** The text before the first `c`, or all of `s` when there is none. */
  function Before(s: string, c: char): (r: string)
    ensures c !in r
    ensures c !in s ==> r == s
    ensures c in s ==> |r| < |s| && s[..|r|] == r && s[|r|] == c
  {
    if c in s then s[..IndexOf(s, c)] else s
  }

  /** The text after the first `c`. */
  function After(s: string, c: char): (r: string)
    requires c in s
    ensures s == Before(s, c) + [c] + r
  {
    s[IndexOf(s, c) + 1..]
  }

  /** The first piece of `split` is the text before the first separator, and
      the second one, when there is one, the text between the first and the
      second separator. */
  lemma JavaSplitFirstPieces(s: string, c: char)
    ensures |JavaSplit(s, c)| >= 1 ==> JavaSplit(s, c)[0] == Before(s, c)
    ensures |JavaSplit(s, c)| >= 2 ==> c in s && JavaSplit(s, c)[1] == Before(After(s, c), c)
  {
    if c in s {
      var all := Split(s, c);
      var rest := Split(After(s, c), c);
      assert all == [Before(s, c)] + rest;
      assert rest[0] == Before(After(s, c), c);
      var r := JavaSplit(s, c);
      assert r == all[..|r|];
      if |r| >= 2 {
        assert r[1] == all[1] == rest[0];
      }
    }
  }

  /** Dropping trailing empty pieces does not reach past a leading piece
      when a later piece survives. */
  lemma {:induction false} DropTrailingEmptyCons(x: string, rest: seq<string>)
    requires DropTrailingEmpty(rest) != []
    ensures DropTrailingEmpty([x] + rest) == [x] + DropTrailingEmpty(rest)
    decreases |rest|
  {
    var all := [x] + rest;
    var n := |rest| - 1;
    assert all[|all| - 1] == rest[n];
    if rest[n] == "" {
      assert all[..|all| - 1] == [x] + rest[..n];
      DropTrailingEmptyCons(x, rest[..n]);
    }
  }

  /** When some separator is followed by text, that text lies after the first separator. */
  lemma TextAfterFirst(s: string, c: char)
    requires SeparatorThenText(s, c)
    ensures c in s && !OnlySeparators(After(s, c), c) && After(s, c) != ""
  {
    var i0, j :| 0 <= i0 < j < |s| && s[i0] == c && s[j] != c;
    assert c in s;
    var p := IndexOf(s, c);
    assert p <= i0;
    var after := After(s, c);
    assert s[p + 1..] == after;
    assert after[j - p - 1] == s[j];
  }

  /** When some separator is followed by text, `split` gives the text before
      the first separator and then the pieces of the text after it. */
  lemma JavaSplitAfterFirst(s: string, c: char)
    requires SeparatorThenText(s, c)
    ensures c in s
    ensures JavaSplit(After(s, c), c) != []
    ensures JavaSplit(s, c) == [Before(s, c)] + JavaSplit(After(s, c), c)
  {
    TextAfterFirst(s, c);
    var after := After(s, c);
    JavaSplitEmpty(after, c);
    assert Split(s, c) == [Before(s, c)] + Split(after, c) by {
      assert s[..IndexOf(s, c)] == Before(s, c) && s[IndexOf(s, c) + 1..] == after;
    }
    assert JavaSplit(after, c) == DropTrailingEmpty(Split(after, c));
    DropTrailingEmptyCons(Before(s, c), Split(after, c));
  }

  /** Some separator is followed by text, and after the first separator none is. */
  predicate SplitsInTwo(s: string, c: char)
  {
    SeparatorThenText(s, c) && c in s && !SeparatorThenText(After(s, c), c)
  }

  /** `split` yields exactly two pieces when the string splits in two. */
  lemma JavaSplitTwo(s: string, c: char)
    ensures |JavaSplit(s, c)| == 2 <==> SplitsInTwo(s, c)
  {
    JavaSplitSeveral(s, c);
    if SeparatorThenText(s, c) {
      JavaSplitAfterFirst(s, c);
      JavaSplitSeveral(After(s, c), c);
    }
  }

  /** Code points that `String.trim` removes: everything up to and including U+0020. */
  predicate IsTrimmed(ch: char)
  {
    ch <= ' '
  }

  predicate AllTrimmed(s: string)
  {
    forall k :: 0 <= k < |s| ==> IsTrimmed(s[k])
  }

  /** Neither end of `s` is a character that `trim` would remove. */
  predicate HasSolidEnds(s: string)
  {
    |s| == 0 || (!IsTrimmed(s[0]) && !IsTrimmed(s[|s| - 1]))
  }

  /** The first position from `i` on whose character `trim` keeps, or `|s|`:
      the first loop of `String.trim`. */
  function SolidFrom(s: string, i: nat): (j: nat)
    requires i <= |s|
    ensures i <= j <= |s|
    ensures forall k :: i <= k < j ==> IsTrimmed(s[k])
    ensures j == |s| || !IsTrimmed(s[j])
    decreases |s| - i
  {
    if i < |s| && IsTrimmed(s[i]) then SolidFrom(s, i + 1) else i
  }

  /** The end, no lower than `lo`, left after dropping trimmable characters
      before `j`: the second loop of `String.trim`. */
  function SolidUntil(s: string, lo: nat, j: nat): (e: nat)
    requires lo <= j <= |s|
    ensures lo <= e <= j
    ensures forall k :: e <= k < j ==> IsTrimmed(s[k])
    ensures e == lo || !IsTrimmed(s[e - 1])
    decreases j
  {
    if j > lo && IsTrimmed(s[j - 1]) then SolidUntil(s, lo, j - 1) else j
  }

  /** `s` is `r` padded on the left by `i` trimmable characters and on the right by trimmable characters. */
  predicate PaddedAt(s: string, r: string, i: int)
  {
    0 <= i <= |s| - |r| && s[i..i + |r|] == r && AllTrimmed(s[..i]) && AllTrimmed(s[i + |r|..])
  }

  /** Java's `String.trim`: the part of `s` left after removing trimmable characters from both ends. */
  function Trim(s: string): (r: string)
    ensures HasSolidEnds(r)
    ensures exists i :: PaddedAt(s, r, i)
  {
    var i := SolidFrom(s, 0);
    var e := SolidUntil(s, i, |s|);
    assert PaddedAt(s, s[i..e], i);
    s[i..e]
  }

  /** The loops of `trim` stop exactly at the ends of the unpadded part. */
  lemma TrimBounds(p: string, t: string, q: string)
    requires AllTrimmed(p) && AllTrimmed(q)
    requires HasSolidEnds(t)
    ensures var s := p + t + q;
      && SolidFrom(s, 0) == (if |t| == 0 then |s| else |p|)
      && SolidUntil(s, SolidFrom(s, 0), |s|) == (if |t| == 0 then |s| else |p| + |t|)
  {
    var s := p + t + q;
    if |t| > 0 {
      assert s[|p|] == t[0];
      assert s[|p| + |t| - 1] == t[|t| - 1];
    }
  }

  /** Trimming removes exactly the padding around a string with solid ends, whatever the padding. */
  lemma TrimPadded(p: string, t: string, q: string)
    requires AllTrimmed(p) && AllTrimmed(q)
    requires HasSolidEnds(t)
    ensures Trim(p + t + q) == t
  {
    var s := p + t + q;
    TrimBounds(p, t, q);
    if |t| > 0 {
      assert s[|p|..|p| + |t|] == t;
    }
  }

  /** `trim` leaves a string with solid ends alone. */
  lemma TrimSolid(t: string)
    requires HasSolidEnds(t)
    ensures Trim(t) == t
  {
    TrimPadded("", t, "");
    assert "" + t + "" == t;
  }

  /** Trimming leaves nothing exactly when every character is trimmable. */
  lemma TrimEmpty(s: string)
    ensures Trim(s) == "" <==> AllTrimmed(s)
  {
    var i :| PaddedAt(s, Trim(s), i);
    if Trim(s) == "" {
      assert s == s[..i] + s[i..];
    }
    if AllTrimmed(s) {
      TrimPadded(s, "", "");
      assert s + "" + "" == s;
    }
  }

  /** `trim` is idempotent. */
  lemma TrimIdempotent(s: string)
    ensures Trim(Trim(s)) == Trim(s)
  {
    TrimSolid(Trim(s));
  }

  /** Java's `Character.isWhitespace` on the ASCII range. */
  predicate IsWhitespace(ch: char)
  {
    ch == ' ' || ('\t' <= ch <= '\r') || ('\U{1C}' <= ch <= '\U{1F}')
  }

  /** `StringUtils.isBlank`: empty, or made of whitespace only (null is modelled as ""). */
  predicate IsBlank(s: string)
  {
    forall k :: 0 <= k < |s| ==> IsWhitespace(s[k])
  }

  /** An ASCII lower-case letter. */
  predicate IsLower(ch: char)
  {
    'a' <= ch <= 'z'
  }

  function UpperChar(ch: char): char
  {
    if IsLower(ch) then (ch as int - 32) as char else ch
  }

  /** `String.toUpperCase` on ASCII letters: 'a'..'z' become 'A'..'Z', every
      other character is kept, and no lower-case letter is left. */
  function ToUpperCase(s: string): (r: string)
    ensures |r| == |s|
    ensures forall k :: 0 <= k < |s| && IsLower(s[k]) ==> 'A' <= r[k] <= 'Z' && r[k] as int - 'A' as int == s[k] as int - 'a' as int
    ensures forall k :: 0 <= k < |s| && !IsLower(s[k]) ==> r[k] == s[k]
    ensures forall k :: 0 <= k < |r| ==> !IsLower(r[k])
  {
    seq(|s|, k requires 0 <= k < |s| => UpperChar(s[k]))
  }

  /** Upper-casing twice is upper-casing once. */
  lemma ToUpperCaseIdempotent(s: string)
    ensures ToUpperCase(ToUpperCase(s)) == ToUpperCase(s)
  {
    var u := ToUpperCase(s);
    assert forall k :: 0 <= k < |u| ==> ToUpperCase(u)[k] == u[k];
  }
}
