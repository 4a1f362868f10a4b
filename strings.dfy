/** `String.prototype.split` and `Array.prototype.join` with a string separator,
    the only string operations the catalog code uses. */
module Strings {

  /** True when `sep` occurs in `s` starting at index `i`. */
  predicate MatchAt(s: string, sep: string, i: nat) {
    i + |sep| <= |s| && s[i..i + |sep|] == sep
  }

  /** `s.split(sep)` for a non-empty separator: the pieces of `s` between the
      occurrences of `sep`, found left to right without overlap. */
  function Split(s: string, sep: string): (parts: seq<string>)
    requires sep != []
    ensures |parts| >= 1
    decreases |s|
  {
    if s == [] then [[]]
    else if sep <= s then [[]] + Split(s[|sep|..], sep)
    else
      var rest := Split(s[1..], sep);
      [[s[0]] + rest[0]] + rest[1..]
  }

  /** `parts.join(sep)`. */
  function Join(parts: seq<string>, sep: string): string {
    if |parts| == 0 then []
    else if |parts| == 1 then parts[0]
    else parts[0] + sep + Join(parts[1..], sep)
  }

  /** `s.split(pat).join(rep)`: every occurrence of `pat`, scanning left to
      right, replaced by `rep`. */
  function ReplaceAll(s: string, pat: string, rep: string): string
    requires pat != []
  {
    Join(Split(s, pat), rep)
  }

  lemma JoinCons(p: string, q: string, rest: seq<string>, sep: string)
    ensures Join([p + q] + rest, sep) == p + Join([q] + rest, sep)
  {
    if |rest| > 0 {
      assert ([p + q] + rest)[1..] == rest;
      assert ([q] + rest)[1..] == rest;
    }
  }

  lemma JoinSnoc(parts: seq<string>, sep: string)
    requires |parts| >= 2
    ensures Join(parts, sep) == Join(parts[..|parts| - 1], sep) + sep + parts[|parts| - 1]
    decreases |parts|
  {
    if |parts| > 2 {
      JoinSnoc(parts[1..], sep);
      assert parts[1..][..|parts| - 2] == parts[..|parts| - 1][1..];
    }
  }

  lemma JoinEmptyFront(rest: seq<string>, sep: string)
    requires |rest| >= 1
    ensures Join([[]] + rest, sep) == sep + Join(rest, sep)
  {
    assert ([[]] + rest)[1..] == rest;
  }

  /** A separator at the front adds an empty first piece. */
  lemma JoinSplitFront(s: string, sep: string)
    requires sep != [] && sep <= s
    requires Join(Split(s[|sep|..], sep), sep) == s[|sep|..]
    ensures Join(Split(s, sep), sep) == s
  {
    var rest := Split(s[|sep|..], sep);
    assert Split(s, sep) == [[]] + rest;
    JoinEmptyFront(rest, sep);
    assert s == sep + s[|sep|..];
  }

  /** Any other first character joins the first piece of the rest. */
  lemma JoinSplitChar(s: string, sep: string)
    requires sep != [] && s != [] && !(sep <= s)
    requires Join(Split(s[1..], sep), sep) == s[1..]
    ensures Join(Split(s, sep), sep) == s
  {
    var rest := Split(s[1..], sep);
    assert Split(s, sep) == [[s[0]] + rest[0]] + rest[1..];
    JoinCons([s[0]], rest[0], rest[1..], sep);
    assert [rest[0]] + rest[1..] == rest;
    assert s == [s[0]] + s[1..];
  }

  /** Splitting and joining again with the same separator gives back the string. */
  lemma {:induction false} JoinSplit(s: string, sep: string)
    requires sep != []
    ensures Join(Split(s, sep), sep) == s
    decreases |s|
  {
    if s == [] {
    } else if sep <= s {
      JoinSplit(s[|sep|..], sep);
      JoinSplitFront(s, sep);
    } else {
      JoinSplit(s[1..], sep);
      JoinSplitChar(s, sep);
    }
  }

  /** A separator that never occurs leaves the string in one piece. */
  lemma {:induction false} SplitAbsent(s: string, sep: string)
    requires sep != []
    requires forall i: nat :: !MatchAt(s, sep, i)
    ensures Split(s, sep) == [s]
    decreases |s|
  {
    if s != [] {
      assert !MatchAt(s, sep, 0);
      assert !(sep <= s);
      forall i: nat ensures !MatchAt(s[1..], sep, i) {
        assert !MatchAt(s, sep, i + 1);
        if i + |sep| <= |s[1..]| {
          assert s[1..][i..i + |sep|] == s[i + 1..i + 1 + |sep|];
        }
      }
      SplitAbsent(s[1..], sep);
      assert [s[0]] + s[1..] == s;
    }
  }

  /** With a one-character separator, the string stays whole exactly when it
      does not contain that character. */
  lemma {:induction false} SplitCharWhole(s: string, c: char)
    ensures c !in s <==> Split(s, [c]) == [s]
    decreases |s|
  {
    if s != [] {
      if s[0] == c {
        assert [c] <= s;
        assert |Split(s, [c])[0]| == 0;
      } else {
        assert !([c] <= s);
        SplitCharWhole(s[1..], c);
        var rest := Split(s[1..], [c]);
        if c !in s {
          assert [s[0]] + s[1..] == s;
        } else {
          assert c in s[1..];
          if |rest| == 1 {
            assert rest != [s[1..]];
            assert Split(s, [c]) == [[s[0]] + rest[0]];
            assert [s[0]] + rest[0] != s;
          }
        }
      }
    }
  }

  /** A one-character separator between two strings splits them apart. */
  lemma {:induction false} SplitCharConcat(x: string, c: char, y: string)
    ensures Split(x + [c] + y, [c]) == Split(x, [c]) + Split(y, [c])
    decreases |x|
  {
    if x == [] {
      assert [c] <= [c] + y;
      assert ([c] + y)[1..] == y;
      assert x + [c] + y == [c] + y;
    } else {
      var s := x + [c] + y;
      assert s[1..] == x[1..] + [c] + y;
      SplitCharConcat(x[1..], c, y);
      if x[0] == c {
        assert [c] <= s && [c] <= x;
      } else {
        assert !([c] <= s) && !([c] <= x);
      }
    }
  }

  /** The pieces of a one-character split never contain that character. */
  lemma {:induction false} SplitCharPieces(s: string, c: char)
    ensures forall i :: 0 <= i < |Split(s, [c])| ==> c !in Split(s, [c])[i]
    decreases |s|
  {
    if s != [] {
      SplitCharPieces(s[1..], c);
      if !([c] <= s) {
        assert s[0] != c;
      }
    }
  }

  /** Joining pieces free of `c` and splitting on `c` gives back the pieces. */
  lemma {:induction false} SplitCharJoin(parts: seq<string>, c: char)
    requires |parts| >= 1
    requires forall i :: 0 <= i < |parts| ==> c !in parts[i]
    ensures Split(Join(parts, [c]), [c]) == parts
    decreases |parts|
  {
    SplitCharWhole(parts[0], c);
    if |parts| > 1 {
      SplitCharJoin(parts[1..], c);
      SplitCharConcat(parts[0], c, Join(parts[1..], [c]));
      assert [parts[0]] + parts[1..] == parts;
    }
  }

  /** A pattern that does not occur leaves the string unchanged. */
  lemma ReplaceAllAbsent(s: string, pat: string, rep: string)
    requires pat != []
    requires forall i: nat :: !MatchAt(s, pat, i)
    ensures ReplaceAll(s, pat, rep) == s
  {
    SplitAbsent(s, pat);
  }

  /** An occurrence at the front is replaced, and the rest is scanned on. */
  lemma ReplaceAllFront(s: string, pat: string, rep: string)
    requires pat != []
    ensures ReplaceAll(pat + s, pat, rep) == rep + ReplaceAll(s, pat, rep)
  {
    assert pat <= pat + s;
    assert (pat + s)[|pat|..] == s;
    var rest := Split(s, pat);
    assert Split(pat + s, pat) == [[]] + rest;
  }

  /** A prefix in which no occurrence of the pattern starts is kept as it is,
      and the scan goes on after it. */
  lemma {:induction false} ReplaceAllKeep(x: string, s: string, pat: string, rep: string)
    requires pat != []
    requires forall i: nat :: i < |x| ==> !MatchAt(x + s, pat, i)
    ensures ReplaceAll(x + s, pat, rep) == x + ReplaceAll(s, pat, rep)
    decreases |x|
  {
    if x == [] {
      assert x + s == s;
    } else {
      var t := x + s;
      assert !MatchAt(t, pat, 0);
      assert !(pat <= t);
      assert t[1..] == x[1..] + s;
      forall i: nat | i < |x[1..]|
        ensures !MatchAt(x[1..] + s, pat, i)
      {
        assert !MatchAt(t, pat, i + 1);
        if i + |pat| <= |t[1..]| {
          assert t[1..][i..i + |pat|] == t[i + 1..i + 1 + |pat|];
        }
      }
      ReplaceAllKeep(x[1..], s, pat, rep);
      var rest := Split(t[1..], pat);
      assert Split(t, pat) == [[t[0]] + rest[0]] + rest[1..];
      JoinCons([t[0]], rest[0], rest[1..], rep);
      assert [rest[0]] + rest[1..] == rest;
      assert [x[0]] + x[1..] == x;
    }
  }

  /** An occurrence after a prefix without occurrences is replaced, the text
      around it is kept, and the scan goes on after it. */
  lemma ReplaceAllMiddle(x: string, pat: string, y: string, rep: string)
    requires pat != []
    requires forall i: nat :: i < |x| ==> !MatchAt(x + pat + y, pat, i)
    ensures ReplaceAll(x + pat + y, pat, rep) == x + rep + ReplaceAll(y, pat, rep)
  {
    assert x + pat + y == x + (pat + y);
    ReplaceAllKeep(x, pat + y, pat, rep);
    ReplaceAllFront(y, pat, rep);
  }
}
