/** get_extended_attributes_info and get_filepath_from_rhsnode: the getfattr
    command, the parse of its output into a two-level map (file path to
    attribute name to value), and the extraction of brick paths from the
    pathinfo attribute. */
module Xattr {
  import opened Common
  import opened Strings

  /** The attribute get_filepath_from_rhsnode asks for. */
  const PathinfoAttr := "trusted.glusterfs.pathinfo"

  /** The encoding get_extended_attributes_info uses when none is given. */
  const DefaultEncoding := "hex"

  // ---------------------------------------------------------------------
  // The command
  // ---------------------------------------------------------------------

  /** "getfattr -d -m . -e <encoding> <files>" when no attribute name is given,
      "getfattr -d -m . -n <attr_name> <files>" otherwise. */
  function GetfattrCommand(encoding: string, attrName: string, files: seq<string>): string {
    var flag := if attrName == "" then "-e" else "-n";
    var arg := if attrName == "" then encoding else attrName;
    "getfattr" + " " + ("-d" + " " + ("-m" + " " + ("." + " " + (flag + " " + (arg + " " + Join(files, ' '))))))
  }

  /** When none of the arguments holds a space, the shell sees the option
      words, the chosen flag and its argument, then one word per file. */
  lemma GetfattrCommandWords(encoding: string, attrName: string, files: seq<string>)
    requires |files| > 0 && ' ' !in encoding && ' ' !in attrName
    requires forall k :: 0 <= k < |files| ==> ' ' !in files[k]
    ensures Split(GetfattrCommand(encoding, attrName, files), ' ')
            == ["getfattr", "-d", "-m", ".", if attrName == "" then "-e" else "-n",
                if attrName == "" then encoding else attrName] + files
  {
    var flag := if attrName == "" then "-e" else "-n";
    var arg := if attrName == "" then encoding else attrName;
    SplitSixThenRest("getfattr", "-d", "-m", ".", flag, arg, Join(files, ' '));
    SplitJoin(files, ' ');
  }

  // ---------------------------------------------------------------------
  // The header pattern .*file:\s(\S+).*
  // ---------------------------------------------------------------------

  /** "file:", one whitespace character and a non-space character start at `p`. */
  predicate FileMarkAt(line: string, p: int) {
    0 <= p && p + 7 <= |line| && line[p..p + 5] == "file:" && IsSpace(line[p + 5]) && NotSpace(line[p + 6])
  }

  /** The largest marked position below `hi`: the greedy leading .* backs off
      from the end, so the last mark on the line is the one that matches. */
  function LastFileMark(line: string, hi: nat): (r: Option<nat>)
    requires hi <= |line|
    ensures r.Some? ==> r.value < hi && FileMarkAt(line, r.value)
                        && forall q :: r.value < q < hi ==> !FileMarkAt(line, q)
    ensures r.None? ==> forall q :: 0 <= q < hi ==> !FileMarkAt(line, q)
  {
    if hi == 0 then None
    else if FileMarkAt(line, hi - 1) then Some(hi - 1)
    else LastFileMark(line, hi - 1)
  }

  /** re.search(r'.*file:\s(\S+).*', line).group(1), or None when it does not
      match: the maximal non-space run after the last "file:<whitespace>". */
  function HeaderPath(line: string): (r: Option<string>)
    ensures r.Some? <==> exists p :: FileMarkAt(line, p)
    ensures r.Some? ==> Token(r.value)
  {
    match LastFileMark(line, |line|)
    case None => None
    case Some(p) => Some(TakeWhile(line[p + 6..], NotSpace))
  }

  /** The last mark wins: the captured path is the run after the last mark. */
  lemma HeaderPathLastMark(line: string, p: int)
    requires FileMarkAt(line, p)
    requires forall q :: p < q ==> !FileMarkAt(line, q)
    ensures HeaderPath(line) == Some(TakeWhile(line[p + 6..], NotSpace))
  {
    var r := LastFileMark(line, |line|);
    assert r.Some? && r.value == p;
  }

  // ---------------------------------------------------------------------
  // Lines and the two-level map
  // ---------------------------------------------------------------------

  /** What the loop makes of one output line: a '#' line is a header whose key
      is "/" + the captured path (None when the pattern fails); any other line
      is split on '=' into the name before the first '=' and the text between
      the first and the second '=' (None when there is no '='). */
  datatype LineKind =
    | HeaderLine(key: Option<string>)
    | AttrLine(name: string, value: Option<string>)

  function Classify(line: string): LineKind {
    if |line| > 0 && line[0] == '#' then
      HeaderLine(match HeaderPath(line) case Some(p) => Some("/" + p) case None => None)
    else
      var parts := Split(line, '=');
      AttrLine(parts[0], if |parts| >= 2 then Some(parts[1]) else None)
  }

  /** An attribute line: the name is the text before the first '=' and the
      value the text up to the second '=', whatever follows it. */
  lemma ClassifyAttrLine(name: string, value: string, rest: string)
    requires '=' !in name && '=' !in value
    requires |name| == 0 || name[0] != '#'
    requires |rest| == 0 || rest[0] == '='
    ensures Classify(name + "=" + value + rest) == AttrLine(name, Some(value))
  {
    var line := name + "=" + value + rest;
    assert line == name + ['='] + (value + rest);
    SplitAround(name, '=', value + rest);
    SplitWithoutSep(name, '=');
    if |rest| == 0 {
      assert value + rest == value;
      SplitWithoutSep(value, '=');
    } else {
      assert value + rest == value + ['='] + rest[1..];
      SplitAround(value, '=', rest[1..]);
      SplitWithoutSep(value, '=');
    }
    if |name| == 0 {
      assert line[0] == '=';
    } else {
      assert line[0] == name[0];
    }
  }

  /** A non-header line without '=' has no value: storing it raises. */
  lemma ClassifyLineWithoutValue(line: string)
    requires '=' !in line && (|line| == 0 || line[0] != '#')
    ensures Classify(line) == AttrLine(line, None)
  {
    SplitWithoutSep(line, '=');
  }

  /** The header getfattr prints for a file, "# file: <path>", is keyed by
      "/" + path (getfattr drops the leading '/' of absolute names). */
  lemma ClassifyHeaderLine(path: string)
    requires Token(path)
    ensures Classify("# file: " + path) == HeaderLine(Some("/" + path))
  {
    var line := "# file: " + path;
    assert line[2..7] == "file:" && line[7] == ' ' && line[8] == path[0];
    assert FileMarkAt(line, 2);
    forall q | 2 < q ensures !FileMarkAt(line, q) {
      if q + 7 <= |line| {
        assert line[q + 5] == path[q + 5 - 8];
      }
    }
    HeaderPathLastMark(line, 2);
    assert line[8..] == path;
    TakeWhileAll(path, NotSpace);
  }

  /** The loop's variables: the current file key and the map built so far. */
  datatype ParseState = ParseState(key: Option<string>, attrs: map<string, map<string, string>>)

  /** The current key, once set, always names an entry of the map. */
  predicate Consistent(st: ParseState) {
    st.key.Some? ==> st.key.value in st.attrs
  }

  /** One iteration: a header binds its key to a fresh empty map (replacing
      an entry of the same key) and a failed header returns None; an
      attribute line stores name -> value under the current key, and raises
      when there is no '=' (IndexError) or no key yet (NameError). */
  function Step(st: ParseState, k: LineKind): (r: Outcome<ParseState>)
    requires Consistent(st)
    ensures r.Returned? ==> Consistent(r.value)
  {
    match k
    case HeaderLine(None) => ReturnedNone
    case HeaderLine(Some(key)) => Returned(ParseState(Some(key), st.attrs[key := map[]]))
    case AttrLine(name, value) =>
      if value.None? || st.key.None? then Raised
      else
        var key := st.key.value;
        Returned(ParseState(st.key, st.attrs[key := st.attrs[key][name := value.value]]))
  }

  /** Some header comes before line `i`. */
  ghost predicate HeaderBefore(ks: seq<LineKind>, i: int) {
    exists j :: 0 <= j < i && j < |ks| && ks[j].HeaderLine?
  }

  /** Line `i` goes through without a return or a raise. */
  ghost predicate KindAccepted(ks: seq<LineKind>, i: int)
    requires 0 <= i < |ks|
  {
    match ks[i]
    case HeaderLine(key) => key.Some?
    case AttrLine(_, value) => value.Some? && HeaderBefore(ks, i)
  }

  ghost predicate Accepted(ks: seq<LineKind>) {
    forall i :: 0 <= i < |ks| ==> KindAccepted(ks, i)
  }

  /** The first line that does not go through is a header the pattern rejects. */
  ghost predicate RejectedHeader(ks: seq<LineKind>) {
    exists i :: 0 <= i < |ks| && ks[i] == HeaderLine(None) && Accepted(ks[..i])
  }

  /** The keys of the accepted headers. */
  ghost function HeaderKeys(ks: seq<LineKind>): set<string> {
    set i | 0 <= i < |ks| && ks[i].HeaderLine? && ks[i].key.Some? :: ks[i].key.value
  }

  /** Every stored name/value pair was read from some attribute line. */
  ghost predicate PairsFromLines(ks: seq<LineKind>, attrs: map<string, map<string, string>>) {
    forall k, n :: k in attrs && n in attrs[k] ==>
      exists i :: 0 <= i < |ks| && ks[i] == AttrLine(n, Some(attrs[k][n]))
  }

  /** The loop over all lines: each line is stepped from the state the lines
      before it left, and the first return or raise ends the loop. */
  function ParseKinds(ks: seq<LineKind>): (r: Outcome<ParseState>)
    ensures r.Returned? ==> Consistent(r.value)
    decreases |ks|
  {
    if |ks| == 0 then Returned(ParseState(None, map[]))
    else
      var prev := ParseKinds(ks[..|ks| - 1]);
      if !prev.Returned? then prev else Step(prev.value, ks[|ks| - 1])
  }

  /** The loop goes through exactly when every line is accepted, returns None
      exactly when the first failing line is a header the pattern rejects,
      and otherwise raises; once through, the current key is set exactly when
      some header was read, the outer keys are exactly the header keys, and
      every stored pair comes from an attribute line. */
  lemma {:induction false} ParseKindsCharacterised(ks: seq<LineKind>)
    ensures var r := ParseKinds(ks);
            && (r.Returned? <==> Accepted(ks))
            && (r.ReturnedNone? <==> RejectedHeader(ks))
            && (r.Returned? ==> (r.value.key.Some? <==> HeaderBefore(ks, |ks|)))
            && (r.Returned? ==> r.value.attrs.Keys == HeaderKeys(ks))
            && (r.Returned? ==> PairsFromLines(ks, r.value.attrs))
    decreases |ks|
  {
    if |ks| > 0 {
      var pre := ks[..|ks| - 1];
      ParseKindsCharacterised(pre);
      ExtendFacts(ks);
      var prev := ParseKinds(pre);
      if prev.Returned? {
        StepFacts(ks, prev.value, Step(prev.value, ks[|ks| - 1]));
      }
    }
  }

  /** How the reference predicates of a line list relate to those of its
      prefix without the last line. */
  lemma ExtendFacts(ks: seq<LineKind>)
    requires |ks| > 0
    ensures var pre := ks[..|ks| - 1];
            && (forall i :: 0 <= i <= |pre| ==> (HeaderBefore(ks, i) <==> HeaderBefore(pre, i)))
            && (HeaderBefore(ks, |ks|) <==> HeaderBefore(pre, |pre|) || ks[|ks| - 1].HeaderLine?)
            && (Accepted(ks) <==> Accepted(pre) && KindAccepted(ks, |ks| - 1))
            && (RejectedHeader(ks) <==> RejectedHeader(pre) || (ks[|ks| - 1] == HeaderLine(None) && Accepted(pre)))
            && HeaderKeys(ks) == HeaderKeys(pre) + (if ks[|ks| - 1].HeaderLine? && ks[|ks| - 1].key.Some?
                                                    then {ks[|ks| - 1].key.value} else {})
  {
    var pre := ks[..|ks| - 1];
    var n := |pre|;
    forall i | 0 <= i <= n ensures HeaderBefore(ks, i) <==> HeaderBefore(pre, i) {
      if HeaderBefore(ks, i) {
        var j :| 0 <= j < i && j < |ks| && ks[j].HeaderLine?;
        assert pre[j] == ks[j];
      }
      if HeaderBefore(pre, i) {
        var j :| 0 <= j < i && j < |pre| && pre[j].HeaderLine?;
        assert pre[j] == ks[j];
      }
    }
    if HeaderBefore(ks, |ks|) && !ks[n].HeaderLine? {
      var j :| 0 <= j < |ks| && ks[j].HeaderLine?;
      assert pre[j] == ks[j];
    }
    if HeaderBefore(pre, n) {
      var j :| 0 <= j < n && pre[j].HeaderLine?;
      assert pre[j] == ks[j];
    }
    if ks[n].HeaderLine? {
      assert HeaderBefore(ks, |ks|);
    }
    assert forall i :: 0 <= i < n ==> (KindAccepted(ks, i) <==> KindAccepted(pre, i)) by {
      forall i | 0 <= i < n ensures KindAccepted(ks, i) <==> KindAccepted(pre, i) {
        assert pre[i] == ks[i];
      }
    }
    if RejectedHeader(ks) {
      var i :| 0 <= i < |ks| && ks[i] == HeaderLine(None) && Accepted(ks[..i]);
      if i < n {
        assert ks[..i] == pre[..i];
        assert pre[i] == ks[i];
      } else {
        assert ks[..i] == pre;
      }
    }
    if RejectedHeader(pre) {
      var i :| 0 <= i < n && pre[i] == HeaderLine(None) && Accepted(pre[..i]);
      assert ks[..i] == pre[..i];
    }
    if ks[n] == HeaderLine(None) && Accepted(pre) {
      assert ks[..n] == pre;
    }
    var extra := if ks[n].HeaderLine? && ks[n].key.Some? then {ks[n].key.value} else {};
    assert HeaderKeys(ks) == HeaderKeys(pre) + extra by {
      forall x | x in HeaderKeys(ks) ensures x in HeaderKeys(pre) + extra {
        var i :| 0 <= i < |ks| && ks[i].HeaderLine? && ks[i].key.Some? && ks[i].key.value == x;
        if i < n { assert pre[i] == ks[i]; }
      }
      forall x | x in HeaderKeys(pre) ensures x in HeaderKeys(ks) {
        var i :| 0 <= i < n && pre[i].HeaderLine? && pre[i].key.Some? && pre[i].key.value == x;
        assert ks[i] == pre[i];
      }
    }
  }

  /** One accepted iteration keeps the loop's contract. */
  lemma StepFacts(ks: seq<LineKind>, st: ParseState, r: Outcome<ParseState>)
    requires |ks| > 0
    requires Consistent(st)
    requires var pre := ks[..|ks| - 1];
             && (st.key.Some? <==> HeaderBefore(pre, |pre|))
             && st.attrs.Keys == HeaderKeys(pre)
             && PairsFromLines(pre, st.attrs)
    requires r == Step(st, ks[|ks| - 1])
    ensures r.Returned? ==> PairsFromLines(ks, r.value.attrs)
  {
    var pre := ks[..|ks| - 1];
    var n := |pre|;
    if r.Returned? {
      var attrs := r.value.attrs;
      forall k, nm | k in attrs && nm in attrs[k]
        ensures exists i :: 0 <= i < |ks| && ks[i] == AttrLine(nm, Some(attrs[k][nm]))
      {
        match ks[n]
        case HeaderLine(key) =>
          assert k != key.value;
          var i :| 0 <= i < n && pre[i] == AttrLine(nm, Some(st.attrs[k][nm]));
          assert ks[i] == pre[i];
        case AttrLine(name, value) =>
          if k == st.key.value && nm == name {
            assert ks[n] == AttrLine(nm, Some(attrs[k][nm]));
          } else {
            assert attrs[k][nm] == st.attrs[k][nm];
            var i :| 0 <= i < n && pre[i] == AttrLine(nm, Some(st.attrs[k][nm]));
            assert ks[i] == pre[i];
          }
      }
    }
  }

  // ---------------------------------------------------------------------
  // A block replaces its file's entry
  // ---------------------------------------------------------------------

  /** The map a list of name/value pairs describes, a later pair for a name winning. */
  function PairsMap(ps: seq<(string, string)>): map<string, string> {
    if |ps| == 0 then map[]
    else PairsMap(ps[..|ps| - 1])[ps[|ps| - 1].0 := ps[|ps| - 1].1]
  }

  /** The attribute lines that hold the given pairs. */
  function PairKinds(ps: seq<(string, string)>): seq<LineKind> {
    seq(|ps|, i requires 0 <= i < |ps| => AttrLine(ps[i].0, Some(ps[i].1)))
  }

  /** Parsing one more line continues from the state the earlier lines left. */
  lemma ParseKindsSnoc(pre: seq<LineKind>, k: LineKind)
    ensures ParseKinds(pre).Returned? ==> ParseKinds(pre + [k]) == Step(ParseKinds(pre).value, k)
    ensures !ParseKinds(pre).Returned? ==> ParseKinds(pre + [k]) == ParseKinds(pre)
  {
    assert (pre + [k])[..|pre|] == pre;
  }

  /** A header followed by attribute lines binds the header's key to exactly
      the map of those pairs, whatever the key held before, and leaves every
      other file untouched. */
  lemma {:induction false} BlockReplacesEntry(pre: seq<LineKind>, key: string, ps: seq<(string, string)>)
    requires ParseKinds(pre).Returned?
    ensures ParseKinds(pre + [HeaderLine(Some(key))] + PairKinds(ps))
            == Returned(ParseState(Some(key), ParseKinds(pre).value.attrs[key := PairsMap(ps)]))
    decreases |ps|
  {
    if |ps| == 0 {
      assert pre + [HeaderLine(Some(key))] + PairKinds(ps) == pre + [HeaderLine(Some(key))];
      ParseKindsSnoc(pre, HeaderLine(Some(key)));
    } else {
      var ps' := ps[..|ps| - 1];
      var (n, v) := ps[|ps| - 1];
      var last := AttrLine(n, Some(v));
      var a := ParseKinds(pre).value.attrs;
      var body := pre + [HeaderLine(Some(key))] + PairKinds(ps');
      BlockReplacesEntry(pre, key, ps');
      assert PairKinds(ps) == PairKinds(ps') + [last];
      assert pre + [HeaderLine(Some(key))] + PairKinds(ps) == body + [last];
      ParseKindsSnoc(body, last);
      var st := ParseState(Some(key), a[key := PairsMap(ps')]);
      assert PairsMap(ps) == PairsMap(ps')[n := v];
      assert st.attrs[key] == PairsMap(ps');
      assert st.attrs[key := PairsMap(ps)] == a[key := PairsMap(ps)];
      assert Step(st, last) == Returned(ParseState(Some(key), a[key := PairsMap(ps)]));
    }
  }

  // ---------------------------------------------------------------------
  // From stdout to lines
  // ---------------------------------------------------------------------

  /** The lists one after another. */
  function Concat(xss: seq<seq<string>>): (r: seq<string>)
    ensures forall x :: x in r ==> exists k :: 0 <= k < |xss| && x in xss[k]
  {
    if |xss| == 0 then []
    else
      var rest := Concat(xss[1..]);
      assert forall x :: x in rest ==> exists k :: 0 <= k < |xss| && x in xss[k] by {
        forall x | x in rest ensures exists k :: 0 <= k < |xss| && x in xss[k] {
          var k :| 0 <= k < |xss[1..]| && x in xss[1..][k];
          assert x in xss[k + 1];
        }
      }
      xss[0] + rest
  }

  /** The blocks the loop examines: stdout split on "\n\n" without the last
      segment. The kept blocks and the dropped segment, joined by "\n\n", are
      the whole output, and the dropped segment holds no "\n\n". */
  function KeptBlocks(stdout: string): (blocks: seq<string>)
    ensures exists tail :: (forall i :: !OccursAt(tail, "\n\n", i))
                           && JoinOn(blocks + [tail], "\n\n") == stdout
  {
    var parts := SplitOn(stdout, "\n\n");
    SplitOnPiecesAvoidSep(stdout, "\n\n");
    JoinSplit(stdout, "\n\n");
    var blocks := DropLast(parts);
    assert blocks + [parts[|parts| - 1]] == parts;
    var tail := parts[|parts| - 1];
    assert forall i :: !OccursAt(tail, "\n\n", i) by {
      forall i ensures !OccursAt(tail, "\n\n", i) {
        if 0 <= i <= |tail| {
          assert !OccursAt(parts[|parts| - 1], "\n\n", i);
        }
      }
    }
    blocks
  }

  /** Every line of every kept block, in order; no line holds a newline. */
  function AttrOutputLines(stdout: string): (lines: seq<string>)
    ensures forall i :: 0 <= i < |lines| ==> '\n' !in lines[i]
  {
    var blocks := KeptBlocks(stdout);
    var split := SplitEach(blocks, '\n');
    assert forall k, j :: 0 <= k < |split| && 0 <= j < |split[k]| ==> '\n' !in split[k][j] by {
      forall k | 0 <= k < |split| ensures forall j :: 0 <= j < |split[k]| ==> '\n' !in split[k][j] {
        SplitPiecesAvoidChar(blocks[k], '\n');
      }
    }
    var lines := Concat(split);
    assert forall i :: 0 <= i < |lines| ==> '\n' !in lines[i] by {
      forall i | 0 <= i < |lines| ensures '\n' !in lines[i] {
        assert lines[i] in lines;
        var k :| 0 <= k < |split| && lines[i] in split[k];
      }
    }
    lines
  }

  /** Each block cut into its lines. */
  function SplitEach(blocks: seq<string>, c: char): (r: seq<seq<string>>)
    ensures |r| == |blocks|
    ensures forall k :: 0 <= k < |r| ==> r[k] == Split(blocks[k], c)
  {
    seq(|blocks|, k requires 0 <= k < |blocks| => Split(blocks[k], c))
  }

  /** The blocks are exactly the pieces before the last that the leftmost
      scan for a blank line cuts: none holds "\n\n", and none ends with a
      newline (the separator would then have started one character earlier).
      With the join in KeptBlocks' contract, this leaves one possible list. */
  lemma KeptBlocksCharacterised(stdout: string)
    ensures var blocks := KeptBlocks(stdout);
            && (forall k, i :: 0 <= k < |blocks| && 0 <= i <= |blocks[k]| ==> !OccursAt(blocks[k], "\n\n", i))
            && (forall k :: 0 <= k < |blocks| && |blocks[k]| > 0 ==> blocks[k][|blocks[k]| - 1] != '\n')
  {
    var parts := SplitOn(stdout, "\n\n");
    SplitOnPiecesAvoidSep(stdout, "\n\n");
    SplitOnLeftmost(stdout, "\n\n");
    var blocks := KeptBlocks(stdout);
    assert blocks == parts[..|parts| - 1];
    forall k | 0 <= k < |blocks| && |blocks[k]| > 0 ensures blocks[k][|blocks[k]| - 1] != '\n' {
      var b := blocks[k];
      assert b == parts[k];
      assert !OccursAt(b + "\n\n", "\n\n", |b| - 1);
      assert (b + "\n\n")[|b| - 1..] == [b[|b| - 1]] + "\n\n";
    }
  }

  /** The lines, joined back with newlines, are the blocks joined with one
      newline each: every line of every block, in order, and nothing else. */
  lemma AttrOutputLinesCharacterised(stdout: string)
    ensures var lines := AttrOutputLines(stdout);
            var blocks := KeptBlocks(stdout);
            && Join(lines, '\n') == JoinOn(blocks, "\n")
            && (|lines| == 0 <==> |blocks| == 0)
  {
    JoinLinesOfBlocks(KeptBlocks(stdout));
  }

  lemma {:induction false} JoinLinesOfBlocks(blocks: seq<string>)
    ensures Join(Concat(SplitEach(blocks, '\n')), '\n') == JoinOn(blocks, "\n")
    ensures |Concat(SplitEach(blocks, '\n'))| == 0 <==> |blocks| == 0
    decreases |blocks|
  {
    if |blocks| > 0 {
      var xss := SplitEach(blocks, '\n');
      assert SplitEach(blocks[1..], '\n') == xss[1..];
      JoinLinesOfBlocks(blocks[1..]);
      JoinSplit(blocks[0], "\n");
      if |blocks| > 1 {
        JoinOnAppend(xss[0], Concat(xss[1..]), "\n");
        assert blocks == [blocks[0]] + blocks[1..];
        JoinOnCons(blocks[0], blocks[1..], "\n");
      } else {
        assert xss[0] + [] == xss[0];
      }
    }
  }

  function Kinds(lines: seq<string>): seq<LineKind> {
    seq(|lines|, i requires 0 <= i < |lines| => Classify(lines[i]))
  }

  /** The parse of getfattr output into file key -> attribute name -> value. */
  function ParseXattr(stdout: string): Outcome<map<string, map<string, string>>> {
    match ParseKinds(Kinds(AttrOutputLines(stdout)))
    case Returned(st) => Returned(st.attrs)
    case ReturnedNone => ReturnedNone
    case Raised => Raised
  }

  /** Attribute values never hold a newline: each is a piece of a single line. */
  lemma ParsedValuesOneLine(stdout: string)
    ensures var r := ParseXattr(stdout);
            r.Returned? ==> forall k, n :: k in r.value && n in r.value[k] ==> '\n' !in r.value[k][n]
  {
    var lines := AttrOutputLines(stdout);
    var ks := Kinds(lines);
    var r := ParseKinds(ks);
    ParseKindsCharacterised(ks);
    if r.Returned? {
      var attrs := r.value.attrs;
      forall k, n | k in attrs && n in attrs[k] ensures '\n' !in attrs[k][n] {
        var i :| 0 <= i < |ks| && ks[i] == AttrLine(n, Some(attrs[k][n]));
        ValueOfOneLine(lines[i], n, attrs[k][n]);
      }
    }
  }

  /** The value of an attribute line is a piece of that line. */
  lemma ValueOfOneLine(line: string, name: string, value: string)
    requires '\n' !in line
    requires Classify(line) == AttrLine(name, Some(value))
    ensures '\n' !in value
  {
    SplitOnPiecesFromText(line, "=");
  }

  // ---------------------------------------------------------------------
  // getfattr's dump format
  // ---------------------------------------------------------------------

  /** One file as getfattr -d dumps it: its path without the leading '/',
      and its attributes in the order printed. */
  datatype FileDump = FileDump(path: string, pairs: seq<(string, string)>)

  function PairLine(pr: (string, string)): string {
    pr.0 + "=" + pr.1
  }

  /** The file's lines: the "# file: " header, then one name=value line per attribute. */
  function DumpLines(f: FileDump): (r: seq<string>)
    ensures |r| == |f.pairs| + 1
  {
    ["# file: " + f.path] + seq(|f.pairs|, i requires 0 <= i < |f.pairs| => PairLine(f.pairs[i]))
  }

  /** The dump: each file's lines, newline-terminated, then an empty line. */
  function DumpText(fs: seq<FileDump>): string {
    if |fs| == 0 then "" else Join(DumpLines(fs[0]), '\n') + "\n\n" + DumpText(fs[1..])
  }

  /** A name=value line the parse reads back as that pair. */
  predicate GoodPair(pr: (string, string)) {
    && '=' !in pr.0 && '=' !in pr.1
    && '\n' !in pr.0 && '\n' !in pr.1
    && (|pr.0| == 0 || pr.0[0] != '#')
  }

  /** A file getfattr prints and the parse can read back: a path without
      whitespace, at least one attribute (getfattr prints nothing for a file
      without any), and pairs as above. */
  predicate WellFormedDump(f: FileDump) {
    && Token(f.path)
    && |f.pairs| > 0
    && forall i :: 0 <= i < |f.pairs| ==> GoodPair(f.pairs[i])
  }

  /** The map a dump describes: "/" + path bound to the file's pairs, a later
      dump of the same path replacing an earlier one. */
  function DumpAttrs(fs: seq<FileDump>): map<string, map<string, string>> {
    if |fs| == 0 then map[]
    else DumpAttrs(fs[..|fs| - 1])["/" + fs[|fs| - 1].path := PairsMap(fs[|fs| - 1].pairs)]
  }

  /** The end-to-end reading of getfattr's output: a well-formed dump parses
      to exactly the map it describes. */
  lemma ParseDump(fs: seq<FileDump>)
    requires forall j :: 0 <= j < |fs| ==> WellFormedDump(fs[j])
    ensures ParseXattr(DumpText(fs)) == Returned(DumpAttrs(fs))
  {
    DumpOutputLines(fs);
    DumpKindsAll(fs);
    ParseAllKinds(fs);
  }

  /** A file's lines are non-empty and newline-free. */
  lemma DumpLinesClean(f: FileDump)
    requires WellFormedDump(f)
    ensures forall j :: 0 <= j < |DumpLines(f)| ==> |DumpLines(f)[j]| > 0 && '\n' !in DumpLines(f)[j]
  {
    var ls := DumpLines(f);
    forall j | 0 <= j < |ls| ensures |ls[j]| > 0 && '\n' !in ls[j] {
      if j == 0 {
        forall i | 0 <= i < |f.path| ensures f.path[i] != '\n' {
          assert NotSpace(f.path[i]);
        }
        assert ls[0] == "# file: " + f.path;
      } else {
        assert ls[j] == PairLine(f.pairs[j - 1]);
        assert GoodPair(f.pairs[j - 1]);
      }
    }
  }

  /** Lines joined by single newlines hold no blank line, not even one
      completed by a "\n\n" that follows them. */
  lemma {:induction false} JoinedLinesNoBlank(xs: seq<string>)
    requires |xs| > 0
    requires forall j :: 0 <= j < |xs| ==> |xs[j]| > 0 && '\n' !in xs[j]
    ensures forall i :: 0 <= i < |Join(xs, '\n')| ==> !OccursAt(Join(xs, '\n') + "\n\n", "\n\n", i)
    decreases |xs|
  {
    var b := Join(xs, '\n');
    var t := b + "\n\n";
    if |xs| == 1 {
      forall i | 0 <= i < |b| ensures !OccursAt(t, "\n\n", i) {
        assert t[i] == xs[0][i];
      }
    } else {
      var b' := Join(xs[1..], '\n');
      JoinedLinesNoBlank(xs[1..]);
      assert xs == [xs[0]] + xs[1..];
      JoinOnCons(xs[0], xs[1..], "\n");
      assert t == xs[0] + "\n" + (b' + "\n\n");
      assert b'[0] == xs[1][0];
      forall i | 0 <= i < |b| ensures !OccursAt(t, "\n\n", i) {
        if i < |xs[0]| {
          assert t[i] == xs[0][i];
        } else if i == |xs[0]| {
          assert t[i + 1] == xs[1][0];
        } else {
          assert t[i..] == (b' + "\n\n")[i - |xs[0]| - 1..];
          assert !OccursAt(b' + "\n\n", "\n\n", i - |xs[0]| - 1);
        }
      }
    }
  }

  /** The blocks of a dump: each file's lines joined by newlines. */
  function DumpBlocks(fs: seq<FileDump>): (r: seq<string>)
    ensures |r| == |fs|
  {
    seq(|fs|, j requires 0 <= j < |fs| => Join(DumpLines(fs[j]), '\n'))
  }

  /** Cutting a dump at blank lines gives the files' blocks and an empty tail. */
  lemma {:induction false} DumpSplitsIntoBlocks(fs: seq<FileDump>)
    requires forall j :: 0 <= j < |fs| ==> WellFormedDump(fs[j])
    ensures SplitOn(DumpText(fs), "\n\n") == DumpBlocks(fs) + [""]
    decreases |fs|
  {
    if |fs| > 0 {
      var b := Join(DumpLines(fs[0]), '\n');
      DumpLinesClean(fs[0]);
      JoinedLinesNoBlank(DumpLines(fs[0]));
      SplitOnAfterPiece(b, "\n\n", DumpText(fs[1..]));
      DumpSplitsIntoBlocks(fs[1..]);
      assert DumpBlocks(fs) == [b] + DumpBlocks(fs[1..]);
    }
  }

  /** Each file's lines, one list per file. */
  function LinesEach(fs: seq<FileDump>): (r: seq<seq<string>>)
    ensures |r| == |fs|
  {
    seq(|fs|, j requires 0 <= j < |fs| => DumpLines(fs[j]))
  }

  /** The lines the loop reads from a dump are the files' lines in order. */
  lemma DumpOutputLines(fs: seq<FileDump>)
    requires forall j :: 0 <= j < |fs| ==> WellFormedDump(fs[j])
    ensures AttrOutputLines(DumpText(fs)) == Concat(LinesEach(fs))
  {
    DumpKeptBlocks(fs);
    LinesOfBlocks(DumpText(fs));
    SplitDumpBlocks(fs);
  }

  /** The loop keeps exactly the files' blocks. */
  lemma DumpKeptBlocks(fs: seq<FileDump>)
    requires forall j :: 0 <= j < |fs| ==> WellFormedDump(fs[j])
    ensures KeptBlocks(DumpText(fs)) == DumpBlocks(fs)
  {
    DumpSplitsIntoBlocks(fs);
  }

  lemma LinesOfBlocks(stdout: string)
    ensures AttrOutputLines(stdout) == Concat(SplitEach(KeptBlocks(stdout), '\n'))
  {
  }

  /** Each file's block splits back into its lines. */
  lemma SplitDumpBlocks(fs: seq<FileDump>)
    requires forall j :: 0 <= j < |fs| ==> WellFormedDump(fs[j])
    ensures SplitEach(DumpBlocks(fs), '\n') == LinesEach(fs)
  {
    var blocks := DumpBlocks(fs);
    forall j | 0 <= j < |fs| ensures Split(blocks[j], '\n') == DumpLines(fs[j]) {
      DumpLinesClean(fs[j]);
      SplitJoin(DumpLines(fs[j]), '\n');
    }
  }

  /** The kinds of a file's lines: its header, then its pairs. */
  function DumpKinds(f: FileDump): seq<LineKind> {
    [HeaderLine(Some("/" + f.path))] + PairKinds(f.pairs)
  }

  lemma DumpLinesKinds(f: FileDump)
    requires WellFormedDump(f)
    ensures Kinds(DumpLines(f)) == DumpKinds(f)
  {
    var ls := DumpLines(f);
    ClassifyHeaderLine(f.path);
    forall j | 0 <= j < |ls| ensures Classify(ls[j]) == DumpKinds(f)[j] {
      if j > 0 {
        var (n, v) := f.pairs[j - 1];
        assert GoodPair(f.pairs[j - 1]);
        ClassifyAttrLine(n, v, "");
        assert ls[j] == n + "=" + v + "";
      }
    }
  }

  /** Every file's kinds, one file after another. */
  function AllKinds(fs: seq<FileDump>): seq<LineKind> {
    if |fs| == 0 then [] else AllKinds(fs[..|fs| - 1]) + DumpKinds(fs[|fs| - 1])
  }

  lemma KindsAppend(a: seq<string>, b: seq<string>)
    ensures Kinds(a + b) == Kinds(a) + Kinds(b)
  {
  }

  lemma {:induction false} ConcatSnoc(xss: seq<seq<string>>)
    requires |xss| > 0
    ensures Concat(xss) == Concat(xss[..|xss| - 1]) + xss[|xss| - 1]
    decreases |xss|
  {
    if |xss| == 1 {
      assert xss[..0] == [];
      assert xss[0] + [] == xss[0];
    } else {
      ConcatSnoc(xss[1..]);
      assert xss[1..][..|xss| - 2] == xss[..|xss| - 1][1..];
    }
  }

  lemma {:induction false} DumpKindsAll(fs: seq<FileDump>)
    requires forall j :: 0 <= j < |fs| ==> WellFormedDump(fs[j])
    ensures Kinds(Concat(LinesEach(fs))) == AllKinds(fs)
    decreases |fs|
  {
    if |fs| > 0 {
      var n := |fs|;
      ConcatSnoc(LinesEach(fs));
      assert LinesEach(fs)[..n - 1] == LinesEach(fs[..n - 1]);
      DumpKindsAll(fs[..n - 1]);
      KindsAppend(Concat(LinesEach(fs[..n - 1])), DumpLines(fs[n - 1]));
      DumpLinesKinds(fs[n - 1]);
    }
  }

  lemma {:induction false} ParseAllKinds(fs: seq<FileDump>)
    ensures ParseKinds(AllKinds(fs)).Returned?
    ensures ParseKinds(AllKinds(fs)).value.attrs == DumpAttrs(fs)
    decreases |fs|
  {
    if |fs| > 0 {
      var f := fs[|fs| - 1];
      var init := fs[..|fs| - 1];
      var pre := AllKinds(init);
      var key := "/" + f.path;
      ParseAllKinds(init);
      BlockReplacesEntry(pre, key, f.pairs);
      AllKindsLast(fs);
    }
  }

  lemma AllKindsLast(fs: seq<FileDump>)
    requires |fs| > 0
    ensures var f := fs[|fs| - 1];
            AllKinds(fs) == AllKinds(fs[..|fs| - 1]) + [HeaderLine(Some("/" + f.path))] + PairKinds(f.pairs)
  {
    var f := fs[|fs| - 1];
    var pre := AllKinds(fs[..|fs| - 1]);
    assert pre + DumpKinds(f) == pre + [HeaderLine(Some("/" + f.path))] + PairKinds(f.pairs);
  }

  /** get_extended_attributes_info: the server (first node when none is given)
      is resolved to an address, the command is run there; a non-zero status
      gives None whatever stdout holds, otherwise stdout is parsed. */
  function GetExtendedAttributesInfo(cfg: Config, files: seq<string>, encoding: string, attrName: string,
                                     server: string, resolve: string -> string, run: Runner)
    : (r: Outcome<map<string, map<string, string>>>)
    requires server != "" || |cfg.nodes| > 0
    ensures var res := run(resolve(DefaultHost(server, cfg.nodes)), GetfattrCommand(encoding, attrName, files));
            && (res.status != 0 ==> r == ReturnedNone)
            && (res.status == 0 ==> r == ParseXattr(res.stdout))
  {
    var host := resolve(DefaultHost(server, cfg.nodes));
    var res := run(host, GetfattrCommand(encoding, attrName, files));
    if res.status != 0 then ReturnedNone else ParseXattr(res.stdout)
  }

  // ---------------------------------------------------------------------
  // The pathinfo pattern .*?POSIX.*?:(\S+)\>
  // ---------------------------------------------------------------------

  predicate PosixAt(s: string, a: int) {
    OccursAt(s, "POSIX", a)
  }

  /** The largest t in [1, hi) with run[t] == '>': where a greedy \S+ backs
      off to so that '>' follows it. */
  function LastCloser(run: string, hi: nat): (r: Option<nat>)
    requires hi <= |run|
    ensures r.Some? ==> 1 <= r.value < hi && run[r.value] == '>'
                        && forall t :: r.value < t < hi ==> run[t] != '>'
    ensures r.None? ==> forall t :: 1 <= t < hi ==> run[t] != '>'
  {
    if hi <= 1 then None
    else if run[hi - 1] == '>' then Some(hi - 1)
    else LastCloser(run, hi - 1)
  }

  /** The non-space run after index `c`. */
  function RunAfter(s: string, c: nat): (r: string)
    requires c < |s|
    ensures c + 1 + |r| <= |s| && AllSatisfy(r, NotSpace)
  {
    TakeWhile(s[c + 1..], NotSpace)
  }

  /** A ':' at `c` from which :(\S+)> matches. */
  predicate ColonAt(s: string, c: int) {
    0 <= c < |s| && s[c] == ':' && LastCloser(RunAfter(s, c), |RunAfter(s, c)|).Some?
  }

  function FirstPosix(s: string, from: nat): (r: Option<nat>)
    requires from <= |s|
    ensures r.Some? ==> from <= r.value && PosixAt(s, r.value)
                        && forall a :: from <= a < r.value ==> !PosixAt(s, a)
    ensures r.None? ==> forall a :: from <= a ==> !PosixAt(s, a)
    decreases |s| - from
  {
    if PosixAt(s, from) then Some(from)
    else if from == |s| then None
    else FirstPosix(s, from + 1)
  }

  function FirstColon(s: string, from: nat): (r: Option<nat>)
    requires from <= |s|
    ensures r.Some? ==> from <= r.value && ColonAt(s, r.value)
                        && forall c :: from <= c < r.value ==> !ColonAt(s, c)
    ensures r.None? ==> forall c :: from <= c ==> !ColonAt(s, c)
    decreases |s| - from
  {
    if from == |s| then None
    else if ColonAt(s, from) then Some(from)
    else FirstColon(s, from + 1)
  }

  /** Somewhere at or after `from`: "POSIX", then later a ':' from which :(\S+)> matches. */
  ghost predicate PosixMatchFrom(s: string, from: int) {
    exists a, c :: from <= a && a + 5 <= c && PosixAt(s, a) && ColonAt(s, c)
  }

  /** re.findall('.*?POSIX.*?:(\S+)\>', s) from index `from`, where '.' may
      match every character (the text examined never holds a newline): the
      first "POSIX", the first ':' after it from which the rest matches, the
      non-space run after that ':' up to its last '>'; then again after that
      '>'. Every path found is a token, and none is found exactly when no
      "POSIX" is followed by such a ':'. */
  function PosixPaths(s: string, from: nat): (r: seq<string>)
    requires from <= |s|
    ensures forall k :: 0 <= k < |r| ==> Token(r[k])
    decreases |s| - from
  {
    match FirstPosix(s, from)
    case None => []
    case Some(a) =>
      match FirstColon(s, a + 5)
      case None => []
      case Some(c) =>
        var run := RunAfter(s, c);
        var t := LastCloser(run, |run|).value;
        [run[..t]] + PosixPaths(s, c + t + 2)
  }

  lemma NoColonNoMatch(s: string, from: nat, a: nat)
    requires from <= a && a + 5 <= |s|
    requires forall a' :: from <= a' < a ==> !PosixAt(s, a')
    requires forall c :: a + 5 <= c ==> !ColonAt(s, c)
    ensures !PosixMatchFrom(s, from)
  {
    forall a', c | from <= a' && a' + 5 <= c && PosixAt(s, a') ensures !ColonAt(s, c) {
      assert a <= a';
    }
  }

  /** No path is found exactly when no "POSIX" is followed by a ':' from
      which the rest of the pattern matches. */
  lemma PosixPathsEmpty(s: string, from: nat)
    requires from <= |s|
    ensures |PosixPaths(s, from)| == 0 <==> !PosixMatchFrom(s, from)
  {
    match FirstPosix(s, from)
    case None =>
    case Some(a) =>
      match FirstColon(s, a + 5)
      case None => NoColonNoMatch(s, from, a);
      case Some(c) => assert PosixAt(s, a) && ColonAt(s, c);
  }

  /** get_filepath_from_rhsnode: the pathinfo attribute of one file is fetched
      (from the first client when no server is given); a None from that fetch
      is passed on, a missing file or attribute raises (KeyError), and
      otherwise the paths found in the attribute value are returned. */
  function GetFilepathFromRhsnode(cfg: Config, filename: string, server: string,
                                  resolve: string -> string, run: Runner): (r: Outcome<seq<string>>)
    requires server != "" || |cfg.clients| > 0
    requires DefaultHost(server, cfg.clients) != "" || |cfg.nodes| > 0
    ensures var info := GetExtendedAttributesInfo(cfg, [filename], DefaultEncoding, PathinfoAttr,
                                                  DefaultHost(server, cfg.clients), resolve, run);
            && (info.ReturnedNone? ==> r.ReturnedNone?)
            && (info.Raised? ==> r.Raised?)
            && (info.Returned? ==> (r.Returned? <==> filename in info.value && PathinfoAttr in info.value[filename]))
            && (info.Returned? && !(filename in info.value && PathinfoAttr in info.value[filename]) ==> r.Raised?)
            && (r.Returned? ==> r.value == PosixPaths(info.value[filename][PathinfoAttr], 0))
    ensures r.Returned? ==> forall k :: 0 <= k < |r.value| ==> Token(r.value[k])
  {
    var info := GetExtendedAttributesInfo(cfg, [filename], DefaultEncoding, PathinfoAttr,
                                          DefaultHost(server, cfg.clients), resolve, run);
    match info
    case ReturnedNone => ReturnedNone
    case Raised => Raised
    case Returned(m) =>
      if filename !in m || PathinfoAttr !in m[filename] then Raised
      else Returned(PosixPaths(m[filename][PathinfoAttr], 0))
  }
}
