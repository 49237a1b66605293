/** calculate_checksum: the sha256sum command over a file list, and the parse
    of its output into a map from path to digest. */
module Checksum {
  import opened Common
  import opened Strings

  /** One accepted output line: the digest and the path it was printed for. */
  datatype Entry = Entry(digest: string, path: string)

  /** The command line: "sha256sum", then the files joined by single spaces. */
  function ChecksumCommand(files: seq<string>): string {
    "sha256sum" + " " + Join(files, ' ')
  }

  // ---------------------------------------------------------------------
  // The line pattern ^(\S+)\s+(\S+)
  // ---------------------------------------------------------------------

  /** re.search(r'^(\S+)\s+(\S+)', s): group 1 is the maximal leading
      non-space run, then at least one whitespace character, then group 2 is
      the maximal non-space run that follows. */
  function TwoTokens(s: string): Option<Entry> {
    var a := TakeWhile(s, NotSpace);
    var rest := s[|a|..];
    var ws := TakeWhile(rest, IsSpace);
    var b := TakeWhile(rest[|ws|..], NotSpace);
    if |a| > 0 && |ws| > 0 && |b| > 0 then Some(Entry(a, b)) else None
  }

  /** The texts the pattern accepts, decomposed: token `a`, a whitespace run
      `ws`, token `b`, and a remainder that is empty or starts with whitespace. */
  ghost predicate TwoTokenShape(s: string, a: string, ws: string, b: string, rest: string) {
    && s == a + (ws + (b + rest))
    && Token(a) && |ws| > 0 && AllSatisfy(ws, IsSpace) && Token(b)
    && (|rest| == 0 || IsSpace(rest[0]))
  }

  /** Every decomposition of that shape is found, with its two tokens. */
  lemma TwoTokensComplete(s: string, a: string, ws: string, b: string, rest: string)
    requires TwoTokenShape(s, a, ws, b, rest)
    ensures TwoTokens(s) == Some(Entry(a, b))
  {
    var u := b + rest;
    var tail := ws + u;
    TakeWhileOfConcat(a, tail, NotSpace);
    assert s[|a|..] == tail;
    TakeWhileOfConcat(ws, u, IsSpace);
    assert tail[|ws|..] == u;
    TakeWhileOfConcat(b, rest, NotSpace);
  }

  /** Whatever the matcher returns comes from such a decomposition. */
  lemma TwoTokensSound(s: string) returns (ws: string, rest: string)
    requires TwoTokens(s).Some?
    ensures TwoTokenShape(s, TwoTokens(s).value.digest, ws, TwoTokens(s).value.path, rest)
  {
    var a := TakeWhile(s, NotSpace);
    var tail := s[|a|..];
    ws := TakeWhile(tail, IsSpace);
    var u := tail[|ws|..];
    var b := TakeWhile(u, NotSpace);
    rest := u[|b|..];
    assert TwoTokens(s) == Some(Entry(a, b));
    PrefixThenRest(u, b);
    PrefixThenRest(tail, ws);
    PrefixThenRest(s, a);
    assert |rest| == 0 || rest[0] == u[|b|];
  }

  /** A line of output after line.strip(), read by the pattern. */
  function ChecksumEntry(line: string): Option<Entry> {
    TwoTokens(Strip(line))
  }

  /** The line matcher applied to each line, in order. */
  function LineEntries(lines: seq<string>): seq<Option<Entry>> {
    seq(|lines|, i requires 0 <= i < |lines| => ChecksumEntry(lines[i]))
  }

  /** A matched line that names path `p`. */
  predicate Names(e: Option<Entry>, p: string) {
    e.Some? && e.value.path == p
  }

  /** Digest `d` for path `p` comes from line `i`, and no later line names `p`. */
  ghost predicate LastEntryFor(es: seq<Option<Entry>>, p: string, d: string) {
    exists i :: 0 <= i < |es| && es[i] == Some(Entry(d, p))
      && forall j :: i < j < |es| ==> !Names(es[j], p)
  }

  /** The loop over the matched lines: every line must have matched, each path
      is bound to its digest, a later line for the same path overwrites the
      earlier one; one unmatched line makes the whole result None. */
  function BuildChecksumMap(es: seq<Option<Entry>>): (r: Option<map<string, string>>)
    ensures r.Some? <==> forall i :: 0 <= i < |es| ==> es[i].Some?
    decreases |es|
  {
    if |es| == 0 then Some(map[])
    else
      var pre := es[..|es| - 1];
      var prefix := BuildChecksumMap(pre);
      var entry := es[|es| - 1];
      assert forall i :: 0 <= i < |pre| ==> pre[i] == es[i];
      if prefix.None? || entry.None? then None
      else Some(prefix.value[entry.value.path := entry.value.digest])
  }

  /** What the map built from matched lines holds: every matched path is a
      key, and each key is bound to the digest of the last line naming it. */
  lemma {:induction false} BuildChecksumMapBindings(es: seq<Option<Entry>>)
    requires BuildChecksumMap(es).Some?
    ensures var m := BuildChecksumMap(es).value;
            forall i :: 0 <= i < |es| ==> es[i].Some? && es[i].value.path in m
    ensures var m := BuildChecksumMap(es).value;
            forall p :: p in m ==> LastEntryFor(es, p, m[p])
    decreases |es|
  {
    if |es| > 0 {
      var pre := es[..|es| - 1];
      var prefix := BuildChecksumMap(pre);
      var entry := es[|es| - 1].value;
      BuildChecksumMapBindings(pre);
      BuildChecksumMapStep(es, prefix.value, entry);
      ExtendLastEntries(es, prefix.value, entry);
      var m := BuildChecksumMap(es).value;
      forall i | 0 <= i < |es| ensures es[i].Some? && es[i].value.path in m {
        if i < |pre| {
          assert pre[i] == es[i];
        }
      }
    }
  }

  /** One more matched line after a successful prefix binds its path. */
  lemma BuildChecksumMapStep(es: seq<Option<Entry>>, m: map<string, string>, e: Entry)
    requires |es| > 0
    requires BuildChecksumMap(es[..|es| - 1]) == Some(m)
    requires es[|es| - 1] == Some(e)
    ensures BuildChecksumMap(es) == Some(m[e.path := e.digest])
  {
  }

  /** One more matched line keeps every key bound to the digest of the last
      line naming it. */
  lemma ExtendLastEntries(es: seq<Option<Entry>>, m: map<string, string>, e: Entry)
    requires |es| > 0
    requires forall p :: p in m ==> LastEntryFor(es[..|es| - 1], p, m[p])
    requires es[|es| - 1] == Some(e)
    ensures LastEntryFor(es, e.path, e.digest)
    ensures forall p :: p in m && p != e.path ==> LastEntryFor(es, p, m[p])
  {
    var pre := es[..|es| - 1];
    assert es[|es| - 1] == Some(Entry(e.digest, e.path));
    forall p | p in m && p != e.path ensures LastEntryFor(es, p, m[p]) {
      var i :| 0 <= i < |pre| && pre[i] == Some(Entry(m[p], p))
        && forall j :: i < j < |pre| ==> !Names(pre[j], p);
      assert es[i] == Some(Entry(m[p], p));
      assert forall j :: i < j < |es| - 1 ==> es[j] == pre[j];
    }
  }

  /** The loop of calculate_checksum over the kept lines. */
  function ParseChecksumLines(lines: seq<string>): Option<map<string, string>> {
    BuildChecksumMap(LineEntries(lines))
  }

  /** A kept line holding only whitespace (an empty line among them) makes
      the whole parse None. */
  lemma BlankLineRejects(lines: seq<string>, i: int)
    requires 0 <= i < |lines| && AllSatisfy(lines[i], IsSpace)
    ensures ParseChecksumLines(lines) == None
  {
    assert TrimLeft(lines[i]) == "";
    assert LineEntries(lines)[i] == None;
  }

  /** The segments calculate_checksum examines: stdout split on '\n' without
      the last segment. The kept lines and the dropped segment, joined by
      newlines, are the whole output, and the dropped segment holds no newline. */
  function KeptLines(stdout: string): (lines: seq<string>)
    ensures forall k :: 0 <= k < |lines| ==> '\n' !in lines[k]
    ensures exists tail :: '\n' !in tail && Join(lines + [tail], '\n') == stdout
  {
    var parts := Split(stdout, '\n');
    SplitPiecesAvoidChar(stdout, '\n');
    JoinSplit(stdout, "\n");
    var lines := DropLast(parts);
    assert lines + [parts[|parts| - 1]] == parts;
    lines
  }

  /** Output that ends with a newline loses no line. */
  lemma KeptLinesOfLines(xs: seq<string>)
    requires forall k :: 0 <= k < |xs| ==> '\n' !in xs[k]
    ensures KeptLines(Lines(xs)) == xs
  {
    var parts := Split(Lines(xs), '\n');
    SplitLines(xs);
    KeptLinesDropLast(Lines(xs));
    assert parts[..|parts| - 1] == xs;
  }

  lemma KeptLinesDropLast(stdout: string)
    ensures KeptLines(stdout) == DropLast(Split(stdout, '\n'))
  {
  }

  /** The parse of the checksum command's output. */
  function ParseChecksum(stdout: string): Option<map<string, string>> {
    ParseChecksumLines(KeptLines(stdout))
  }

  /** calculate_checksum: run the command on the server (the first node when
      none is given); a non-zero status gives None whatever stdout holds,
      otherwise stdout is parsed. */
  function CalculateChecksum(cfg: Config, files: seq<string>, server: string, run: Runner)
    : (r: Option<map<string, string>>)
    requires server != "" || |cfg.nodes| > 0
    ensures var res := run(DefaultHost(server, cfg.nodes), ChecksumCommand(files));
            && (res.status != 0 ==> r == None)
            && (res.status == 0 ==> r == ParseChecksum(res.stdout))
  {
    var res := run(DefaultHost(server, cfg.nodes), ChecksumCommand(files));
    if res.status != 0 then None else ParseChecksum(res.stdout)
  }

  // ---------------------------------------------------------------------
  // Round trip: what sha256sum prints is parsed back into the same entries
  // ---------------------------------------------------------------------

  /** A line as sha256sum prints it: digest, two spaces, path. */
  function DigestLine(e: Entry): string {
    e.digest + "  " + e.path
  }

  /** The output sha256sum prints for a list of entries. */
  function DigestOutput(es: seq<Entry>): string {
    Lines(DigestLines(es))
  }

  function DigestLines(es: seq<Entry>): (r: seq<string>)
    ensures |r| == |es| && forall k :: 0 <= k < |es| ==> r[k] == DigestLine(es[k])
  {
    if |es| == 0 then [] else DigestLines(es[..|es| - 1]) + [DigestLine(es[|es| - 1])]
  }

  /** The map the entries describe, a later entry for a path winning. */
  function EntriesMap(es: seq<Entry>): map<string, string> {
    if |es| == 0 then map[]
    else EntriesMap(es[..|es| - 1])[es[|es| - 1].path := es[|es| - 1].digest]
  }

  predicate WellFormedEntry(e: Entry) {
    Token(e.digest) && Token(e.path)
  }

  lemma DigestLineParses(e: Entry)
    requires WellFormedEntry(e)
    ensures ChecksumEntry(DigestLine(e)) == Some(e)
    ensures '\n' !in DigestLine(e)
  {
    DigestLineUnpadded(e);
    DigestLineShape(e);
    TwoTokensComplete(DigestLine(e), e.digest, "  ", e.path, "");
    DigestLineOneLine(e);
  }

  lemma DigestLineUnpadded(e: Entry)
    requires WellFormedEntry(e)
    ensures Strip(DigestLine(e)) == DigestLine(e)
  {
    var l := DigestLine(e);
    assert l[0] == e.digest[0];
    assert l[|l| - 1] == e.path[|e.path| - 1];
    StripUnpadded(l);
  }

  lemma DigestLineShape(e: Entry)
    requires WellFormedEntry(e)
    ensures TwoTokenShape(DigestLine(e), e.digest, "  ", e.path, "")
  {
    assert AllSatisfy("  ", IsSpace);
    assert DigestLine(e) == e.digest + ("  " + (e.path + ""));
  }

  lemma DigestLineOneLine(e: Entry)
    requires WellFormedEntry(e)
    ensures '\n' !in DigestLine(e)
  {
    var l := DigestLine(e);
    forall i | 0 <= i < |l| ensures l[i] != '\n' {
      if i < |e.digest| {
        assert l[i] == e.digest[i];
      } else if i >= |e.digest| + 2 {
        assert l[i] == e.path[i - |e.digest| - 2];
      }
    }
  }

  lemma {:induction false} ParseDigestLines(es: seq<Entry>)
    requires forall k :: 0 <= k < |es| ==> WellFormedEntry(es[k])
    ensures ParseChecksumLines(DigestLines(es)) == Some(EntriesMap(es))
    decreases |es|
  {
    if |es| > 0 {
      var pre := es[..|es| - 1];
      var last := es[|es| - 1];
      ParseDigestLines(pre);
      var ents := LineEntries(DigestLines(es));
      assert ents[..|es| - 1] == LineEntries(DigestLines(pre));
      DigestLineParses(last);
      assert ents[|es| - 1] == Some(last);
      BuildChecksumMapStep(ents, EntriesMap(pre), last);
    }
  }

  /** Round trip: parsing what sha256sum prints for well-formed entries gives
      exactly the map those entries describe. */
  lemma ChecksumRoundTrip(es: seq<Entry>)
    requires forall k :: 0 <= k < |es| ==> WellFormedEntry(es[k])
    ensures ParseChecksum(DigestOutput(es)) == Some(EntriesMap(es))
  {
    var lines := DigestLines(es);
    forall k | 0 <= k < |lines| ensures '\n' !in lines[k] {
      DigestLineParses(es[k]);
    }
    KeptLinesOfLines(lines);
    ParseDigestLines(es);
  }

  /** The keys of the map are the paths of the entries. */
  lemma {:induction false} EntriesMapKeys(es: seq<Entry>)
    ensures EntriesMap(es).Keys == set k | 0 <= k < |es| :: es[k].path
    decreases |es|
  {
    if |es| > 0 {
      var pre := es[..|es| - 1];
      EntriesMapKeys(pre);
      var last := es[|es| - 1];
      var keys := set k | 0 <= k < |es| :: es[k].path;
      var preKeys := set k | 0 <= k < |pre| :: pre[k].path;
      forall x | x in keys ensures x in preKeys + {last.path} {
        var k :| 0 <= k < |es| && es[k].path == x;
        if k < |pre| { assert pre[k].path == x; }
      }
      forall x | x in preKeys ensures x in keys {
        var k :| 0 <= k < |pre| && pre[k].path == x;
        assert es[k].path == x;
      }
    }
  }

  /** With distinct paths, one entry per line: N lines give N keys. */
  lemma {:induction false} EntriesMapSize(es: seq<Entry>)
    requires forall i, j :: 0 <= i < j < |es| ==> es[i].path != es[j].path
    ensures |EntriesMap(es)| == |es|
    decreases |es|
  {
    if |es| > 0 {
      var pre := es[..|es| - 1];
      var last := es[|es| - 1];
      EntriesMapSize(pre);
      EntriesMapKeys(pre);
      forall x | x in EntriesMap(pre) ensures x != last.path {
        var k :| 0 <= k < |pre| && pre[k].path == x;
        assert es[k].path == x;
      }
    }
  }

  /** The command line: "sha256sum", then the files joined by single spaces.
      When no file name holds a space, the shell sees exactly one word per file. */
  lemma ChecksumCommandWords(files: seq<string>)
    requires |files| > 0 && forall k :: 0 <= k < |files| ==> ' ' !in files[k]
    ensures Split(ChecksumCommand(files), ' ') == ["sha256sum"] + files
  {
    SplitAround("sha256sum", ' ', Join(files, ' '));
    SplitWithoutSep("sha256sum", ' ');
    SplitJoin(files, ' ');
    assert ChecksumCommand(files) == "sha256sum" + [' '] + Join(files, ' ');
  }
}
