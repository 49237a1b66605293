/** Text primitives with the meaning Python 2 gives them on byte strings:
    str.isspace, split, join, strip, rstrip, %d formatting and int() of a digit string. */
module Strings {
  import opened Common

  /** Whitespace as the helpers' Python 2 sees it in command output (byte
      strings): str.isspace, strip() and the regex class \s without the
      UNICODE flag all mean space, tab, newline, carriage return, vertical
      tab and form feed. */
  predicate IsSpace(c: char) {
    c == ' ' || '\t' <= c <= '\r'
  }

  /** The regex class \S. */
  predicate NotSpace(c: char) { !IsSpace(c) }

  /** The regex class [0-9]. */
  predicate IsDigit(c: char) { '0' <= c <= '9' }

  predicate AllSatisfy(s: string, p: char -> bool) {
    forall i :: 0 <= i < |s| ==> p(s[i])
  }

  /** A non-empty run of non-whitespace characters, what the regex \S+ matches. */
  predicate Token(t: string) {
    |t| > 0 && AllSatisfy(t, NotSpace)
  }

  /** `t` occurs in `s` starting at index `i`. */
  predicate OccursAt(s: string, t: string, i: int) {
    0 <= i <= |s| && t <= s[i..]
  }

  // ---------------------------------------------------------------------
  // Maximal runs
  // ---------------------------------------------------------------------

  /** The longest prefix of `s` whose characters all satisfy `p` (a greedy `p+`/`p*`). */
  function TakeWhile(s: string, p: char -> bool): (r: string)
    ensures r <= s && AllSatisfy(r, p)
    ensures |r| == |s| || !p(s[|r|])
  {
    if |s| == 0 || !p(s[0]) then "" else [s[0]] + TakeWhile(s[1..], p)
  }

  /** A text all of whose characters satisfy `p` is its own run. */
  lemma {:induction false} TakeWhileAll(s: string, p: char -> bool)
    requires AllSatisfy(s, p)
    ensures TakeWhile(s, p) == s
    decreases |s|
  {
    if |s| > 0 {
      assert AllSatisfy(s[1..], p);
      TakeWhileAll(s[1..], p);
    }
  }

  /** A run is maximal exactly when the next character stops it. */
  lemma {:induction false} TakeWhileOfConcat(x: string, y: string, p: char -> bool)
    requires AllSatisfy(x, p)
    requires |y| == 0 || !p(y[0])
    ensures TakeWhile(x + y, p) == x
    decreases |x|
  {
    if |x| > 0 {
      assert (x + y)[1..] == x[1..] + y;
      TakeWhileOfConcat(x[1..], y, p);
      assert x == [x[0]] + x[1..];
    } else {
      assert x + y == y;
    }
  }

  // ---------------------------------------------------------------------
  // strip / rstrip
  // ---------------------------------------------------------------------

  /** Python's s.lstrip(). */
  function TrimLeft(s: string): (r: string)
    ensures |r| <= |s| && r == s[|s| - |r|..]
    ensures AllSatisfy(s[..|s| - |r|], IsSpace)
    ensures |r| == 0 || !IsSpace(r[0])
  {
    var lead := TakeWhile(s, IsSpace);
    assert s[..|lead|] == lead;
    s[|lead|..]
  }

  /** Python's s.rstrip(). */
  function TrimRight(s: string): (r: string)
    ensures r <= s
    ensures AllSatisfy(s[|r|..], IsSpace)
    ensures |r| == 0 || !IsSpace(r[|r| - 1])
  {
    if |s| > 0 && IsSpace(s[|s| - 1]) then
      var r := TrimRight(s[..|s| - 1]);
      assert s[|r|..] == s[..|s| - 1][|r|..] + [s[|s| - 1]];
      r
    else s
  }

  /** Python's s.strip(). */
  function Strip(s: string): (r: string)
    ensures |r| == 0 || (!IsSpace(r[0]) && !IsSpace(r[|r| - 1]))
  {
    TrimRight(TrimLeft(s))
  }

  /** Text that neither begins nor ends with whitespace is its own strip. */
  lemma StripUnpadded(s: string)
    requires |s| > 0 && !IsSpace(s[0]) && !IsSpace(s[|s| - 1])
    ensures Strip(s) == s
  {
    assert TakeWhile(s, IsSpace) == "";
  }

  // ---------------------------------------------------------------------
  // split / join
  // ---------------------------------------------------------------------

  /** Python's s.split(sep) for a non-empty separator string: scan left to
      right, cut at every non-overlapping occurrence. Never empty. */
  function SplitOn(s: string, sep: string): (r: seq<string>)
    requires |sep| > 0
    ensures |r| >= 1
    decreases |s|
  {
    if sep <= s then [""] + SplitOn(s[|sep|..], sep)
    else if |s| == 0 then [""]
    else
      var rest := SplitOn(s[1..], sep);
      [[s[0]] + rest[0]] + rest[1..]
  }

  /** Python's sep.join(xs). */
  function JoinOn(xs: seq<string>, sep: string): string {
    if |xs| == 0 then ""
    else if |xs| == 1 then xs[0]
    else xs[0] + sep + JoinOn(xs[1..], sep)
  }

  /** Python's s.split(c) for a one-character separator. */
  function Split(s: string, c: char): (r: seq<string>)
    ensures |r| >= 1
  {
    SplitOn(s, [c])
  }

  /** Python's c.join(xs) for a one-character separator. */
  function Join(xs: seq<string>, c: char): string {
    JoinOn(xs, [c])
  }

  /** Python's xs[:-1]. */
  function DropLast<T>(xs: seq<T>): (r: seq<T>)
    ensures |xs| > 0 ==> xs == r + [xs[|xs| - 1]]
    ensures |xs| == 0 ==> r == []
  {
    if |xs| == 0 then [] else xs[..|xs| - 1]
  }

  /** Joining the pieces of a split with the same separator gives the text back. */
  lemma JoinOnCons(x: string, xs: seq<string>, sep: string)
    requires |xs| > 0
    ensures JoinOn([x] + xs, sep) == x + sep + JoinOn(xs, sep)
  {
    assert ([x] + xs)[1..] == xs;
  }

  lemma {:induction false} JoinSplit(s: string, sep: string)
    requires |sep| > 0
    ensures JoinOn(SplitOn(s, sep), sep) == s
    decreases |s|
  {
    if sep <= s {
      JoinSplit(s[|sep|..], sep);
      JoinSplitAtSep(s, sep);
    } else if |s| > 0 {
      JoinSplit(s[1..], sep);
      JoinSplitAtChar(s, sep);
    }
  }

  lemma JoinSplitAtSep(s: string, sep: string)
    requires |sep| > 0 && sep <= s
    requires JoinOn(SplitOn(s[|sep|..], sep), sep) == s[|sep|..]
    ensures JoinOn(SplitOn(s, sep), sep) == s
  {
    SplitOnAtSep(s, sep);
    JoinOnCons("", SplitOn(s[|sep|..], sep), sep);
    PrefixThenRest(s, sep);
  }

  lemma SplitOnAtSep(s: string, sep: string)
    requires |sep| > 0 && sep <= s
    ensures SplitOn(s, sep) == [""] + SplitOn(s[|sep|..], sep)
  {
  }

  /** A prefix followed by what remains is the whole text. */
  lemma PrefixThenRest(s: string, p: string)
    requires p <= s
    ensures s == p + s[|p|..]
  {
  }

  lemma JoinSplitAtChar(s: string, sep: string)
    requires |sep| > 0 && !(sep <= s) && |s| > 0
    requires JoinOn(SplitOn(s[1..], sep), sep) == s[1..]
    ensures JoinOn(SplitOn(s, sep), sep) == s
  {
    SplitOnAtChar(s, sep);
    JoinAfterHead(s, SplitOn(s[1..], sep), SplitOn(s, sep), sep);
  }

  lemma SplitOnAtChar(s: string, sep: string)
    requires |sep| > 0 && !(sep <= s) && |s| > 0
    ensures var rest := SplitOn(s[1..], sep);
            SplitOn(s, sep) == [[s[0]] + rest[0]] + rest[1..]
  {
  }

  /** Pieces that join to all but the first character, with that character
      put in front of the first of them, join to the whole text. */
  lemma JoinAfterHead(s: string, rest: seq<string>, xs: seq<string>, sep: string)
    requires |s| > 0 && |rest| > 0 && xs == [[s[0]] + rest[0]] + rest[1..]
    requires JoinOn(rest, sep) == s[1..]
    ensures JoinOn(xs, sep) == s
  {
    JoinOnHead(s[0], rest, sep);
    assert s == [s[0]] + s[1..];
  }

  /** Prefixing the first piece prefixes the join. */
  lemma JoinOnHead(c: char, xs: seq<string>, sep: string)
    requires |xs| > 0
    ensures JoinOn([[c] + xs[0]] + xs[1..], sep) == [c] + JoinOn(xs, sep)
  {
    if |xs| > 1 {
      JoinOnCons(xs[0], xs[1..], sep);
      JoinOnCons([c] + xs[0], xs[1..], sep);
      assert xs == [xs[0]] + xs[1..];
    }
  }

  /** No piece of a split contains the separator. */
  lemma {:induction false} SplitOnPiecesAvoidSep(s: string, sep: string)
    requires |sep| > 0
    ensures forall k, i :: 0 <= k < |SplitOn(s, sep)| && 0 <= i <= |SplitOn(s, sep)[k]|
              ==> !OccursAt(SplitOn(s, sep)[k], sep, i)
    decreases |s|
  {
    var r := SplitOn(s, sep);
    if sep <= s {
      SplitOnPiecesAvoidSep(s[|sep|..], sep);
      assert r[1..] == SplitOn(s[|sep|..], sep);
      forall k, i | 0 <= k < |r| && 0 <= i <= |r[k]|
        ensures !OccursAt(r[k], sep, i)
      {
        if k > 0 { assert r[k] == SplitOn(s[|sep|..], sep)[k - 1]; }
      }
    } else if |s| == 0 {
    } else {
      var rest := SplitOn(s[1..], sep);
      SplitOnPiecesAvoidSep(s[1..], sep);
      JoinSplit(s[1..], sep);
      forall k, i | 0 <= k < |r| && 0 <= i <= |r[k]|
        ensures !OccursAt(r[k], sep, i)
      {
        if k > 0 {
          assert r[k] == rest[k];
        } else if i > 0 {
          assert r[0][i..] == rest[0][i - 1..];
          assert !OccursAt(rest[0], sep, i - 1);
        } else {
          // r[0] is a prefix of s, and s does not start with sep
          PieceZeroIsPrefix(s[1..], sep);
          assert rest[0] <= s[1..];
          assert r[0] <= s;
        }
      }
    }
  }

  /** The scan cuts at the leftmost occurrence: in every piece but the last,
      followed by the separator as it is in the text, the separator does not
      start before the piece's end. */
  lemma {:induction false} SplitOnLeftmost(s: string, sep: string)
    requires |sep| > 0
    ensures forall k, i :: 0 <= k < |SplitOn(s, sep)| - 1 && 0 <= i < |SplitOn(s, sep)[k]|
              ==> !OccursAt(SplitOn(s, sep)[k] + sep, sep, i)
    decreases |s|
  {
    var r := SplitOn(s, sep);
    if sep <= s {
      SplitOnLeftmost(s[|sep|..], sep);
      SplitOnAtSep(s, sep);
      forall k, i | 0 <= k < |r| - 1 && 0 <= i < |r[k]| ensures !OccursAt(r[k] + sep, sep, i) {
        assert r[k] == SplitOn(s[|sep|..], sep)[k - 1];
      }
    } else if |s| > 0 {
      var rest := SplitOn(s[1..], sep);
      SplitOnLeftmost(s[1..], sep);
      SplitOnAtChar(s, sep);
      forall k, i | 0 <= k < |r| - 1 && 0 <= i < |r[k]| ensures !OccursAt(r[k] + sep, sep, i) {
        if k > 0 {
          assert r[k] == rest[k];
        } else if i > 0 {
          assert (r[0] + sep)[i..] == (rest[0] + sep)[i - 1..];
          assert !OccursAt(rest[0] + sep, sep, i - 1);
        } else {
          FirstPieceThenSep(s[1..], sep);
          assert r[0] + sep == [s[0]] + (rest[0] + sep);
          assert (r[0] + sep)[..|sep|] == s[..|sep|];
        }
      }
    }
  }

  /** A first piece that is not the last is followed by the separator. */
  lemma FirstPieceThenSep(s: string, sep: string)
    requires |sep| > 0 && |SplitOn(s, sep)| > 1
    ensures SplitOn(s, sep)[0] + sep <= s
  {
    var r := SplitOn(s, sep);
    JoinSplit(s, sep);
    JoinOnCons(r[0], r[1..], sep);
    assert r == [r[0]] + r[1..];
  }

  /** Conversely, a piece in which the separator does not start before its
      end is cut off whole when the separator follows it. */
  lemma {:induction false} SplitOnAfterPiece(x: string, sep: string, rest: string)
    requires |sep| > 0
    requires forall i :: 0 <= i < |x| ==> !OccursAt(x + sep, sep, i)
    ensures SplitOn(x + sep + rest, sep) == [x] + SplitOn(rest, sep)
    decreases |x|
  {
    var s := x + sep + rest;
    if |x| == 0 {
      assert s == sep + rest;
      SplitOnAtSep(s, sep);
      assert s[|sep|..] == rest;
    } else {
      assert (x + sep)[..|sep|] == s[..|sep|];
      assert !OccursAt(x + sep, sep, 0);
      forall i | 0 <= i < |x[1..]| ensures !OccursAt(x[1..] + sep, sep, i) {
        assert (x[1..] + sep)[i..] == (x + sep)[i + 1..];
        assert !OccursAt(x + sep, sep, i + 1);
      }
      SplitOnAfterPiece(x[1..], sep, rest);
      assert s[1..] == x[1..] + sep + rest;
      SplitOnAtChar(s, sep);
      assert [s[0]] + x[1..] == x;
    }
  }

  /** Joining two non-empty lists puts one separator between their joins. */
  lemma {:induction false} JoinOnAppend(a: seq<string>, b: seq<string>, sep: string)
    requires |a| > 0 && |b| > 0
    ensures JoinOn(a + b, sep) == JoinOn(a, sep) + sep + JoinOn(b, sep)
    decreases |a|
  {
    if |a| == 1 {
      assert a + b == [a[0]] + b;
      JoinOnCons(a[0], b, sep);
    } else {
      var ja, jb := JoinOn(a[1..], sep), JoinOn(b, sep);
      JoinOnAppend(a[1..], b, sep);
      assert a + b == [a[0]] + (a[1..] + b);
      JoinOnCons(a[0], a[1..] + b, sep);
      assert a == [a[0]] + a[1..];
      JoinOnCons(a[0], a[1..], sep);
      assert a[0] + sep + (ja + sep + jb) == (a[0] + sep + ja) + sep + jb;
    }
  }

  /** The first piece of a split is a prefix of the text. */
  lemma {:induction false} PieceZeroIsPrefix(s: string, sep: string)
    requires |sep| > 0
    ensures SplitOn(s, sep)[0] <= s
    decreases |s|
  {
    if sep <= s {
    } else if |s| == 0 {
    } else {
      PieceZeroIsPrefix(s[1..], sep);
    }
  }

  /** Every character of every piece is a character of the text. */
  lemma {:induction false} SplitOnPiecesFromText(s: string, sep: string)
    requires |sep| > 0
    ensures forall k, x :: 0 <= k < |SplitOn(s, sep)| && x in SplitOn(s, sep)[k] ==> x in s
    decreases |s|
  {
    var r := SplitOn(s, sep);
    if sep <= s {
      SplitOnPiecesFromText(s[|sep|..], sep);
      forall k, x | 0 <= k < |r| && x in r[k] ensures x in s {
        assert r[k] == SplitOn(s[|sep|..], sep)[k - 1];
        assert x in s[|sep|..];
      }
    } else if |s| == 0 {
    } else {
      var rest := SplitOn(s[1..], sep);
      SplitOnPiecesFromText(s[1..], sep);
      forall k, x | 0 <= k < |r| && x in r[k] ensures x in s {
        if k > 0 {
          assert r[k] == rest[k];
          assert x in s[1..];
        } else if x != s[0] {
          assert x in rest[0];
          assert x in s[1..];
        }
      }
    }
  }

  /** A single-character split never leaves the separator in a piece. */
  lemma SplitPiecesAvoidChar(s: string, c: char)
    ensures forall k :: 0 <= k < |Split(s, c)| ==> c !in Split(s, c)[k]
  {
    SplitOnPiecesAvoidSep(s, [c]);
    forall k | 0 <= k < |Split(s, c)| ensures c !in Split(s, c)[k] {
      var p := Split(s, c)[k];
      if c in p {
        var i :| 0 <= i < |p| && p[i] == c;
        assert OccursAt(p, [c], i);
      }
    }
  }

  /** Text without the separator splits into itself alone. */
  lemma {:induction false} SplitWithoutSep(a: string, c: char)
    requires c !in a
    ensures Split(a, c) == [a]
    decreases |a|
  {
    if |a| > 0 {
      SplitWithoutSep(a[1..], c);
      assert [a[0]] + a[1..] == a;
    }
  }

  /** Splitting around one separator concatenates the splits of both sides. */
  lemma {:induction false} SplitAround(a: string, c: char, b: string)
    ensures Split(a + [c] + b, c) == Split(a, c) + Split(b, c)
    decreases |a|
  {
    if |a| == 0 {
      assert a + [c] + b == [c] + b;
      assert ([c] + b)[1..] == b;
    } else if a[0] == c {
      SplitAround(a[1..], c, b);
      assert (a + [c] + b)[1..] == a[1..] + [c] + b;
    } else {
      SplitAround(a[1..], c, b);
      assert (a + [c] + b)[1..] == a[1..] + [c] + b;
    }
  }

  /** Splitting a join restores the list when no element holds the separator. */
  lemma {:induction false} SplitJoin(xs: seq<string>, c: char)
    requires |xs| > 0
    requires forall k :: 0 <= k < |xs| ==> c !in xs[k]
    ensures Split(Join(xs, c), c) == xs
    decreases |xs|
  {
    if |xs| == 1 {
      SplitWithoutSep(xs[0], c);
    } else {
      SplitJoin(xs[1..], c);
      SplitWithoutSep(xs[0], c);
      SplitAround(xs[0], c, Join(xs[1..], c));
    }
  }

  /** Lines each followed by a newline: the shape of a command's output. */
  function Lines(xs: seq<string>): string {
    if |xs| == 0 then "" else xs[0] + "\n" + Lines(xs[1..])
  }

  /** Splitting newline-terminated lines on newline leaves one empty final segment. */
  lemma {:induction false} SplitLines(xs: seq<string>)
    requires forall k :: 0 <= k < |xs| ==> '\n' !in xs[k]
    ensures Split(Lines(xs), '\n') == xs + [""]
    decreases |xs|
  {
    if |xs| == 0 {
    } else {
      SplitLines(xs[1..]);
      SplitWithoutSep(xs[0], '\n');
      SplitAround(xs[0], '\n', Lines(xs[1..]));
      assert xs == [xs[0]] + xs[1..];
    }
  }

  // ---------------------------------------------------------------------
  // Shell words
  // ---------------------------------------------------------------------

  function NonEmpty(xs: seq<string>): (r: seq<string>)
    ensures forall k :: 0 <= k < |r| ==> r[k] != ""
  {
    if |xs| == 0 then [] else (if xs[0] == "" then [] else [xs[0]]) + NonEmpty(xs[1..])
  }

  lemma {:induction false} NonEmptyConcat(a: seq<string>, b: seq<string>)
    ensures NonEmpty(a + b) == NonEmpty(a) + NonEmpty(b)
    decreases |a|
  {
    if |a| > 0 {
      NonEmptyConcat(a[1..], b);
      assert (a + b)[1..] == a[1..] + b;
    } else {
      assert a + b == b;
    }
  }

  /** The words a shell sees in a command line separated by spaces: runs of
      spaces separate, so empty clauses leave no word behind. */
  function Words(s: string): seq<string> {
    NonEmpty(Split(s, ' '))
  }

  /** A space-free first word splits off on its own. */
  lemma SplitFirstWord(a: string, b: string)
    requires ' ' !in a
    ensures Split(a + " " + b, ' ') == [a] + Split(b, ' ')
  {
    SplitAround(a, ' ', b);
    SplitWithoutSep(a, ' ');
  }

  lemma WordsAround(a: string, b: string)
    ensures Words(a + " " + b) == Words(a) + Words(b)
  {
    SplitAround(a, ' ', b);
    NonEmptyConcat(Split(a, ' '), Split(b, ' '));
  }

  lemma WordsOfWord(a: string)
    requires a != "" && ' ' !in a
    ensures Words(a) == [a]
  {
    SplitWithoutSep(a, ' ');
    assert NonEmpty([a]) == [a] + NonEmpty([]);
  }

  lemma WordsOfEmpty()
    ensures Words("") == []
  {
  }

  // Command lines built from fields separated by single spaces, as the
  // shell reads them (Words) and as split(" ") cuts them (Split).

  lemma WordsOfTwo(a: string, b: string)
    requires a != "" && ' ' !in a && b != "" && ' ' !in b
    ensures Words(a + " " + b) == [a, b]
  {
    WordsAround(a, b);
    WordsOfWord(a);
    WordsOfWord(b);
  }

  lemma WordsAroundText(a: string, m: string, c: string, d: string)
    requires a != "" && ' ' !in a && c != "" && ' ' !in c && d != "" && ' ' !in d
    ensures Words(a + " " + (m + " " + (c + " " + d))) == [a] + Words(m) + [c, d]
  {
    WordsAround(a, m + " " + (c + " " + d));
    WordsAround(m, c + " " + d);
    WordsOfTwo(c, d);
    WordsOfWord(a);
  }

  lemma WordsOfFive(a: string, b: string, c: string, d: string, e: string)
    requires a != "" && ' ' !in a && b != "" && ' ' !in b && c != "" && ' ' !in c
    requires d != "" && ' ' !in d && e != "" && ' ' !in e
    ensures Words(a + " " + (b + " " + (c + " " + (d + " " + e)))) == [a, b, c, d, e]
  {
    WordsAround(a, b + " " + (c + " " + (d + " " + e)));
    WordsAround(b, c + " " + (d + " " + e));
    WordsAround(c, d + " " + e);
    WordsOfTwo(d, e);
    WordsOfWord(a);
    WordsOfWord(b);
    WordsOfWord(c);
  }

  lemma ThreeFieldWords(a: string, b: string, c: string)
    ensures Words(a + " " + (b + " " + c)) == Words(a) + Words(b) + Words(c)
  {
    WordsAround(a, b + " " + c);
    WordsAround(b, c);
  }

  lemma FourWordsThenRest(a: string, b: string, c: string, d: string, rest: string)
    requires a != "" && ' ' !in a && b != "" && ' ' !in b && c != "" && ' ' !in c && d != "" && ' ' !in d
    ensures Words(a + " " + (b + " " + (c + " " + (d + " " + rest)))) == [a, b, c, d] + Words(rest)
  {
    WordsAround(a, b + " " + (c + " " + (d + " " + rest)));
    WordsAround(b, c + " " + (d + " " + rest));
    WordsAround(c, d + " " + rest);
    WordsAround(d, rest);
    WordsOfWord(a);
    WordsOfWord(b);
    WordsOfWord(c);
    WordsOfWord(d);
  }

  lemma SplitSixThenRest(a: string, b: string, c: string, d: string, e: string, f: string, rest: string)
    requires ' ' !in a && ' ' !in b && ' ' !in c && ' ' !in d && ' ' !in e && ' ' !in f
    ensures Split(a + " " + (b + " " + (c + " " + (d + " " + (e + " " + (f + " " + rest))))), ' ')
            == [a, b, c, d, e, f] + Split(rest, ' ')
  {
    var tail := d + " " + (e + " " + (f + " " + rest));
    SplitThreeThenRest(d, e, f, rest);
    SplitThreeThenRest(a, b, c, tail);
  }

  lemma SplitThreeThenRest(a: string, b: string, c: string, rest: string)
    requires ' ' !in a && ' ' !in b && ' ' !in c
    ensures Split(a + " " + (b + " " + (c + " " + rest)), ' ') == [a, b, c] + Split(rest, ' ')
  {
    SplitFirstWord(c, rest);
    SplitFirstWord(b, c + " " + rest);
    SplitFirstWord(a, b + " " + (c + " " + rest));
  }

  // ---------------------------------------------------------------------
  // Numbers: %d formatting and int() parsing
  // ---------------------------------------------------------------------

  function DigitChar(d: nat): (c: char)
    requires d < 10
    ensures IsDigit(c)
  {
    (48 + d) as char
  }

  function DigitValue(c: char): (d: nat)
    requires IsDigit(c)
    ensures d < 10
  {
    c as int - 48
  }

  /** Python's "%d" % n for a non-negative n. */
  function NatToString(n: nat): (r: string)
    ensures |r| > 0 && AllSatisfy(r, IsDigit)
    decreases n
  {
    if n < 10 then [DigitChar(n)] else NatToString(n / 10) + [DigitChar(n % 10)]
  }

  /** Python's int(s) on a string of ASCII digits (leading zeros allowed). */
  function DigitsValue(s: string): nat
    requires AllSatisfy(s, IsDigit)
  {
    if |s| == 0 then 0
    else 10 * DigitsValue(s[..|s| - 1]) + DigitValue(s[|s| - 1])
  }

  /** int() undoes %d on the naturals. */
  lemma {:induction false} NatToStringRoundTrip(n: nat)
    ensures DigitsValue(NatToString(n)) == n
    decreases n
  {
    if n >= 10 {
      NatToStringRoundTrip(n / 10);
      var s := NatToString(n);
      assert s[..|s| - 1] == NatToString(n / 10);
    }
  }

  /** Python's "%d" % i. */
  function IntToString(i: int): (r: string)
    ensures |r| > 0 && ' ' !in r
  {
    if i < 0 then "-" + NatToString(-i) else NatToString(i)
  }

  /** Python's int(s) restricted to an optional minus sign and ASCII digits. */
  function ParseInt(s: string): Option<int> {
    if |s| > 0 && s[0] == '-' then
      if |s| > 1 && AllSatisfy(s[1..], IsDigit) then var v: int := DigitsValue(s[1..]); Some(-v) else None
    else if |s| > 0 && AllSatisfy(s, IsDigit) then Some(DigitsValue(s))
    else None
  }

  /** ParseInt undoes %d on every integer. */
  lemma IntToStringRoundTrip(i: int)
    ensures ParseInt(IntToString(i)) == Some(i)
  {
    if i < 0 {
      NatToStringRoundTrip(-i);
      assert IntToString(i)[1..] == NatToString(-i);
    } else {
      NatToStringRoundTrip(i);
    }
  }

  // ---------------------------------------------------------------------
  // Literal occurrence counting
  // ---------------------------------------------------------------------

  /** The number of matches re.findall(p, text) returns when `p` is read as a
      literal: non-overlapping, leftmost first; an empty pattern matches at
      every one of the |text| + 1 positions. */
  function CountOccurrences(text: string, p: string): nat
    decreases |text|
  {
    if |p| == 0 then |text| + 1
    else if |text| == 0 then 0
    else if p <= text then 1 + CountOccurrences(text[|p|..], p)
    else CountOccurrences(text[1..], p)
  }

  /** Any occurrence is counted at least once. */
  lemma {:induction false} OccurrenceCounted(text: string, p: string, i: nat)
    requires OccursAt(text, p, i)
    ensures CountOccurrences(text, p) >= 1
    decreases i
  {
    if |p| > 0 && !(p <= text) {
      assert i > 0;
      assert text[1..][i - 1..] == text[i..];
      OccurrenceCounted(text[1..], p, i - 1);
    }
  }

  /** Text in which the pattern never occurs counts zero. */
  lemma {:induction false} AbsentNotCounted(text: string, p: string)
    requires |p| > 0
    requires forall i :: 0 <= i <= |text| ==> !OccursAt(text, p, i)
    ensures CountOccurrences(text, p) == 0
    decreases |text|
  {
    if |text| > 0 {
      assert !OccursAt(text, p, 0);
      forall i | 0 <= i <= |text[1..]| ensures !OccursAt(text[1..], p, i) {
        assert text[1..][i..] == text[i + 1..];
        assert !OccursAt(text, p, i + 1);
      }
      AbsentNotCounted(text[1..], p);
    }
  }

  /** Counting is additive over a cut that no occurrence can straddle: the
      last character before the cut is not in the pattern (a listing cut
      after a newline, a host name holding none). */
  lemma {:induction false} CountOccurrencesConcat(a: string, b: string, p: string)
    requires |p| > 0 && |a| > 0 && a[|a| - 1] !in p
    ensures CountOccurrences(a + b, p) == CountOccurrences(a, p) + CountOccurrences(b, p)
    decreases |a|
  {
    var s := a + b;
    if p <= s {
      if |a| <= |p| {
        PrefixCoversCut(a, b, p);
        assert false;
      }
      assert p == s[..|p|] == a[..|p|];
      assert s[|p|..] == a[|p|..] + b;
      CountOccurrencesConcat(a[|p|..], b, p);
    } else {
      assert s[1..] == a[1..] + b;
      if |a| > 1 {
        CountOccurrencesConcat(a[1..], b, p);
      }
    }
  }

  /** A prefix of a + b at least as long as a contains a's last character. */
  lemma PrefixCoversCut(a: string, b: string, p: string)
    requires p <= a + b && 0 < |a| <= |p|
    ensures a[|a| - 1] in p
  {
    assert p[|a| - 1] == (a + b)[|a| - 1];
  }

  /** A pattern whose first character the text lacks counts zero. */
  lemma FirstCharAbsentNotCounted(text: string, p: string)
    requires |p| > 0 && p[0] !in text
    ensures CountOccurrences(text, p) == 0
  {
    forall i | 0 <= i <= |text| ensures !OccursAt(text, p, i) {
      if i < |text| {
        assert text[i..][0] == text[i];
      }
    }
    AbsentNotCounted(text, p);
  }
}
