/** Gluster brick operations: adding bricks to a volume (numbering them after
    the last brick the volume lists, and spreading them round-robin over the
    peers) and bringing one brick down by killing its process. */
module Bricks {
  import opened Common
  import opened Strings

  // ---------------------------------------------------------------------
  // Reading the volume's brick numbers
  // ---------------------------------------------------------------------

  /** Lists the "BrickN:" lines of every volume. */
  const VolinfoQuery := "gluster volume info | egrep \"^Brick[0-9]+\""

  /** The directory every new brick lives under. */
  const BrickRoot := "/bricks"

  /** The text in front of a brick's number in its name. */
  function BrickPrefix(vol: string): (p: string)
    ensures |p| > |vol|
  {
    vol + "_brick"
  }

  /** The name add-brick gives brick number `index` of volume `vol`. */
  function BrickName(vol: string, index: nat): string {
    BrickPrefix(vol) + NatToString(index)
  }

  /** The digits the pattern <vol>_brick([0-9]+) captures when a match starts at `i`. */
  function BrickNumberAt(text: string, vol: string, i: int): Option<string> {
    var p := BrickPrefix(vol);
    if OccursAt(text, p, i) && i + |p| < |text| && IsDigit(text[i + |p|]) then
      Some(TakeWhile(text[i + |p|..], IsDigit))
    else None
  }

  /** A match is the brick prefix followed by a maximal non-empty run of digits. */
  lemma BrickNumberAtShape(text: string, vol: string, i: int)
    ensures var d := BrickNumberAt(text, vol, i);
            d.Some? ==> OccursAt(text, BrickPrefix(vol), i) && |d.value| > 0 && AllSatisfy(d.value, IsDigit)
                        && i + |BrickPrefix(vol)| + |d.value| <= |text|
                        && (i + |BrickPrefix(vol)| + |d.value| == |text|
                            || !IsDigit(text[i + |BrickPrefix(vol)| + |d.value|]))
  {
    var p := BrickPrefix(vol);
    if BrickNumberAt(text, vol, i).Some? {
      var d := BrickNumberAt(text, vol, i).value;
      assert d <= text[i + |p|..];
      if i + |p| + |d| < |text| {
        assert text[i + |p|..][|d|] == text[i + |p| + |d|];
      }
    }
  }

  /** re.findall(vol + "_brick([0-9]+)", text) from index `from`, the volume
      name read literally: leftmost matches, each scan resuming after the
      digits of the previous match. */
  function BrickNumbers(text: string, vol: string, from: nat): seq<string>
    decreases |text| - from
  {
    if from >= |text| then []
    else
      match BrickNumberAt(text, vol, from)
      case Some(d) => [d] + BrickNumbers(text, vol, from + |BrickPrefix(vol)| + |d|)
      case None => BrickNumbers(text, vol, from + 1)
  }

  /** Every element is the digit run of some match at or after `from`. */
  lemma {:induction false} BrickNumbersFound(text: string, vol: string, from: nat)
    ensures var r := BrickNumbers(text, vol, from);
            forall k :: 0 <= k < |r| ==> exists i :: from <= i && BrickNumberAt(text, vol, i) == Some(r[k])
    decreases |text| - from
  {
    if from < |text| {
      match BrickNumberAt(text, vol, from)
      case Some(d) =>
        BrickNumbersFound(text, vol, from + |BrickPrefix(vol)| + |d|);
        BrickNumbersAtMatch(text, vol, from);
      case None =>
        BrickNumbersFound(text, vol, from + 1);
        BrickNumbersNoMatch(text, vol, from);
    }
  }

  /** Every element is a non-empty run of digits. */
  lemma {:induction false} BrickNumbersDigits(text: string, vol: string, from: nat)
    ensures DigitRuns(BrickNumbers(text, vol, from))
    decreases |text| - from
  {
    if from < |text| {
      match BrickNumberAt(text, vol, from)
      case Some(d) =>
        var next := from + |BrickPrefix(vol)| + |d|;
        BrickNumbersDigits(text, vol, next);
        BrickNumbersAtMatch(text, vol, from);
        MatchDigits(text, vol, from);
        DigitRunsCons(d, BrickNumbers(text, vol, next));
      case None =>
        BrickNumbersDigits(text, vol, from + 1);
        BrickNumbersNoMatch(text, vol, from);
    }
  }

  lemma MatchDigits(text: string, vol: string, i: int)
    ensures var d := BrickNumberAt(text, vol, i);
            d.Some? ==> |d.value| > 0 && AllSatisfy(d.value, IsDigit)
  {
    BrickNumberAtShape(text, vol, i);
  }

  /** Every string in `r` is a non-empty run of digits, what int() accepts. */
  predicate DigitRuns(r: seq<string>) {
    forall k :: 0 <= k < |r| ==> |r[k]| > 0 && AllSatisfy(r[k], IsDigit)
  }

  lemma DigitRunsCons(d: string, r: seq<string>)
    requires |d| > 0 && AllSatisfy(d, IsDigit) && DigitRuns(r)
    ensures DigitRuns([d] + r)
  {
    assert forall k :: 0 < k <= |r| ==> ([d] + r)[k] == r[k - 1];
  }

  /** The scan finds nothing exactly when no match starts at or after `from`. */
  lemma {:induction false} BrickNumbersEmpty(text: string, vol: string, from: nat)
    ensures |BrickNumbers(text, vol, from)| == 0 <==> NoMatchFrom(text, vol, from)
    decreases |text| - from
  {
    if from < |text| {
      match BrickNumberAt(text, vol, from)
      case Some(d) =>
        BrickNumbersAtMatch(text, vol, from);
      case None =>
        BrickNumbersEmpty(text, vol, from + 1);
        BrickNumbersNoMatch(text, vol, from);
    }
  }

  /** No match starts at or after `from`, position by position. */
  predicate NoMatchFrom(text: string, vol: string, from: nat)
    decreases |text| - from
  {
    from >= |text| || (BrickNumberAt(text, vol, from).None? && NoMatchFrom(text, vol, from + 1))
  }

  /** The same, as a statement about every position. */
  lemma {:induction false} NoMatchFromEverywhere(text: string, vol: string, from: nat)
    ensures NoMatchFrom(text, vol, from) <==> forall i :: from <= i ==> BrickNumberAt(text, vol, i).None?
    decreases |text| - from
  {
    if from < |text| {
      NoMatchFromEverywhere(text, vol, from + 1);
    } else {
      forall i | from <= i ensures BrickNumberAt(text, vol, i).None? {
        assert !(i + |BrickPrefix(vol)| < |text|);
      }
    }
  }

  /** The number of the first brick to add: one more than the number in the
      last match, None when the volume information lists no brick of the
      volume (the source then raises). */
  function NextBrickIndex(text: string, vol: string): (r: Option<nat>)
    ensures r.Some? ==> r.value >= 1
  {
    var ds := BrickNumbers(text, vol, 0);
    if |ds| == 0 then None
    else
      LastBrickNumberDigits(text, vol);
      Some(DigitsValue(ds[|ds| - 1]) + 1)
  }

  lemma LastBrickNumberDigits(text: string, vol: string)
    requires |BrickNumbers(text, vol, 0)| > 0
    ensures var ds := BrickNumbers(text, vol, 0); AllSatisfy(ds[|ds| - 1], IsDigit)
  {
    BrickNumbersDigits(text, vol, 0);
  }

  /** There is a next index exactly when some brick of the volume is listed. */
  lemma NextBrickIndexDefined(text: string, vol: string)
    ensures NextBrickIndex(text, vol).Some? <==> exists i :: BrickNumberAt(text, vol, i).Some?
  {
    BrickNumbersEmpty(text, vol, 0);
    NoMatchFromEverywhere(text, vol, 0);
  }

  /** The scan passes over positions where no match starts. */
  lemma {:induction false} BrickNumbersSkip(text: string, vol: string, from: nat, j: nat)
    requires from <= j
    requires forall i :: from <= i < j ==> BrickNumberAt(text, vol, i).None?
    ensures BrickNumbers(text, vol, from) == BrickNumbers(text, vol, j)
    decreases j - from
  {
    if from < j && from < |text| {
      BrickNumbersNoMatch(text, vol, from);
      BrickNumbersSkip(text, vol, from + 1, j);
    }
  }

  /** A match where the scan stands is taken, and the scan resumes right
      after its digits: matches never overlap. */
  lemma BrickNumbersAtMatch(text: string, vol: string, from: nat)
    requires BrickNumberAt(text, vol, from).Some?
    ensures var d := BrickNumberAt(text, vol, from).value;
            BrickNumbers(text, vol, from) == [d] + BrickNumbers(text, vol, from + |BrickPrefix(vol)| + |d|)
  {
  }

  lemma BrickNumbersNoMatch(text: string, vol: string, from: nat)
    requires BrickNumberAt(text, vol, from).None?
    ensures BrickNumbers(text, vol, from) == BrickNumbers(text, vol, from + 1)
  {
  }

  /** When no match found before `target` runs past it, the scan reaches
      `target`: what it finds is some list followed by what a scan from
      `target` finds. */
  lemma {:induction false} BrickNumbersReach(text: string, vol: string, from: nat, target: nat)
    returns (xs: seq<string>)
    requires from <= target
    requires forall i :: from <= i < target ==> MatchEnd(text, vol, i) <= target
    ensures BrickNumbers(text, vol, from) == xs + BrickNumbers(text, vol, target)
    decreases target - from
  {
    if from == target || from >= |text| {
      xs := [];
    } else {
      var next := MatchEnd(text, vol, from);
      var m := BrickNumberAt(text, vol, from);
      if m.Some? {
        BrickNumbersAtMatch(text, vol, from);
        var rest := BrickNumbersReach(text, vol, next, target);
        xs := [m.value] + rest;
      } else {
        BrickNumbersNoMatch(text, vol, from);
        xs := BrickNumbersReach(text, vol, from + 1, target);
      }
    }
  }

  /** Where the scan resumes after looking at position `i`: after the digits
      of a match there, or at `i` itself when none starts there. */
  function MatchEnd(text: string, vol: string, i: nat): (e: nat)
    ensures e >= i
    ensures BrickNumberAt(text, vol, i).Some? ==> e > i
  {
    match BrickNumberAt(text, vol, i)
    case Some(d) => i + |BrickPrefix(vol)| + |d|
    case None => i
  }

  /** A listing whose last brick of the volume is brick n numbers the next
      brick n + 1 (int() undoes %d): whatever comes before the name, as long
      as no match there runs into the name, and whatever follows it, as long
      as it does not continue the digits and holds no further match. */
  lemma NextIndexAfterBrickName(pre: string, vol: string, n: nat, post: string)
    requires |post| == 0 || !IsDigit(post[0])
    requires forall i :: 0 <= i < |pre| ==> MatchEnd(pre + BrickName(vol, n) + post, vol, i) <= |pre|
    requires var text := pre + BrickName(vol, n) + post;
             forall i :: |pre| < i ==> BrickNumberAt(text, vol, i).None?
    ensures NextBrickIndex(pre + BrickName(vol, n) + post, vol) == Some(n + 1)
  {
    var text := pre + BrickName(vol, n) + post;
    var at := |pre|;
    BrickNameMatches(pre, vol, n, post);
    var e := at + |BrickPrefix(vol)| + |NatToString(n)|;
    NoMatchFromEverywhere(text, vol, e);
    LastMatchNumbers(text, vol, at, n);
  }

  /** When the match at `at` is the last one, and none before it runs into
      it, the next brick is numbered after its digits. */
  lemma LastMatchNumbers(text: string, vol: string, at: nat, n: nat)
    requires BrickNumberAt(text, vol, at) == Some(NatToString(n))
    requires forall i :: 0 <= i < at ==> MatchEnd(text, vol, i) <= at
    requires NoMatchFrom(text, vol, MatchEnd(text, vol, at))
    ensures NextBrickIndex(text, vol) == Some(n + 1)
  {
    BrickNumbersEndAt(text, vol, at);
    NatToStringRoundTrip(n);
  }

  /** The same conditions make the match at `at` the last one the scan finds. */
  lemma BrickNumbersEndAt(text: string, vol: string, at: nat)
    requires BrickNumberAt(text, vol, at).Some?
    requires forall i :: 0 <= i < at ==> MatchEnd(text, vol, i) <= at
    requires NoMatchFrom(text, vol, MatchEnd(text, vol, at))
    ensures var ds := BrickNumbers(text, vol, 0);
            |ds| > 0 && ds[|ds| - 1] == BrickNumberAt(text, vol, at).value
  {
    var d := BrickNumberAt(text, vol, at).value;
    var xs := BrickNumbersReach(text, vol, 0, at);
    BrickNumbersAtMatch(text, vol, at);
    BrickNumbersEmpty(text, vol, MatchEnd(text, vol, at));
    assert BrickNumbers(text, vol, 0) == xs + [d];
  }

  /** The name of brick n is a match capturing n's digits, when what follows
      does not continue them. */
  lemma BrickNameMatches(pre: string, vol: string, n: nat, post: string)
    requires |post| == 0 || !IsDigit(post[0])
    ensures BrickNumberAt(pre + BrickName(vol, n) + post, vol, |pre|) == Some(NatToString(n))
  {
    var text := pre + BrickName(vol, n) + post;
    var p := BrickPrefix(vol);
    var digits := NatToString(n);
    assert text[|pre|..] == p + (digits + post);
    assert text[|pre| + |p|..] == digits + post;
    TakeWhileOfConcat(digits, post, IsDigit);
  }

  /** No match starts where the first character of the brick prefix is absent. */
  lemma NoMatchWithoutPrefixStart(text: string, vol: string, lo: nat, hi: nat)
    requires lo <= hi <= |text|
    requires BrickPrefix(vol)[0] !in text[lo..hi]
    ensures forall i :: lo <= i < hi ==> BrickNumberAt(text, vol, i).None?
  {
    forall i | lo <= i < hi ensures BrickNumberAt(text, vol, i).None? {
      assert text[i..][0] == text[i] == text[lo..hi][i - lo];
    }
  }

  /** The volume information of a volume "vol" made of the one brick
      <host>:/bricks/brick0/vol_brick0 numbers the next brick 1, whatever the
      host is called, as long as its name cannot start a match. */
  lemma NextIndexOfOneBrickListing(host: string)
    requires 'v' !in host
    ensures NextBrickIndex("Brick1: " + host + ":/bricks/brick0/" + "vol_brick0" + "\n", "vol") == Some(1)
  {
    var pre := "Brick1: " + host + ":/bricks/brick0/";
    assert NatToString(0) == "0";
    assert BrickName("vol", 0) == "vol_brick0";
    OneBrickListingMatches(pre);
    NextIndexAfterBrickName(pre, "vol", 0, "\n");
  }

  /** The listing's only match is the brick's name. */
  lemma OneBrickListingMatches(pre: string)
    requires 'v' !in pre
    ensures var text := pre + BrickName("vol", 0) + "\n";
            && (forall i :: 0 <= i < |pre| ==> MatchEnd(text, "vol", i) <= |pre|)
            && (forall i :: |pre| < i ==> BrickNumberAt(text, "vol", i).None?)
  {
    var text := pre + BrickName("vol", 0) + "\n";
    assert NatToString(0) == "0";
    assert text[..|pre|] == pre;
    NoMatchWithoutPrefixStart(text, "vol", 0, |pre|);
    assert text[|pre| + 1..] == "ol_brick0\n";
    NoMatchWithoutPrefixStart(text, "vol", |pre| + 1, |text|);
    NoMatchFromEverywhere(text, "vol", |text|);
  }

  // ---------------------------------------------------------------------
  // Placing the new bricks
  // ---------------------------------------------------------------------

  /** A brick to add: its peer, the number of its directory under the brick
      root, and its index in its name. */
  datatype NewBrick = NewBrick(peer: string, dir: nat, index: nat)

  /** A line of the volume information counts its brick's host once, when
      the rest of the line cannot start the host's name. */
  lemma BrickLineCountsItsHost(pos: string, host: string, rest: string)
    requires host != "" && ':' !in host && ' ' !in host
    requires host[0] !in "Brick" + pos + ": " && host[0] !in rest
    ensures CountOccurrences("Brick" + pos + ": " + host + ":" + rest, host) == 1
  {
    var head := "Brick" + pos + ": ";
    assert head[|head| - 1] == ' ';
    assert head + host + ":" + rest == head + ((host + ":") + rest);
    CountOccurrencesConcat(head, (host + ":") + rest, host);
    FirstCharAbsentNotCounted(head, host);
    CountOccurrencesConcat(host + ":", rest, host);
    FirstCharAbsentNotCounted(rest, host);
    assert (host + ":")[|host|..] == ":";
    FirstCharAbsentNotCounted(":", host);
  }

  /** Volume information made of lines is counted line by line. */
  lemma ListingCountsByLine(line: string, rest: string, host: string)
    requires |line| > 0 && line[|line| - 1] == '\n' && host != "" && '\n' !in host
    ensures CountOccurrences(line + rest, host) == CountOccurrences(line, host) + CountOccurrences(rest, host)
  {
    CountOccurrencesConcat(line, rest, host);
  }

  /** add_brick on volume "vol" whose one brick is listed as
      `Brick1: <host>:/bricks/brick0/vol_brick0`, with that host as the only
      peer: the first new brick is numbered 1, the host is counted once, and
      one new brick renders as ` <host>:/bricks/brick1/vol_brick1`. */
  lemma OneBrickListingExample(host: string)
    requires host != "" && ':' !in host && ' ' !in host && 'v' !in host
    requires host[0] !in "Brick1: " && host[0] !in "/bricks/brick0/vol_brick0\n"
    ensures var text := "Brick1: " + host + ":/bricks/brick0/" + "vol_brick0" + "\n";
            && NextBrickIndex(text, "vol") == Some(1)
            && CountOccurrences(text, host) == 1
            && RenderBricks("vol", Placement(text, [host], 1, 1)) == " " + host + ":/bricks/brick1/vol_brick1"
  {
    var text := "Brick1: " + host + ":/bricks/brick0/" + "vol_brick0" + "\n";
    NextIndexOfOneBrickListing(host);
    OneBrickListingCount(host);
    RenderOneBrick(text, "vol", host, 1);
    SecondBrickSpec(host);
  }

  lemma OneBrickListingCount(host: string)
    requires host != "" && ':' !in host && ' ' !in host
    requires host[0] !in "Brick1: " && host[0] !in "/bricks/brick0/vol_brick0\n"
    ensures CountOccurrences("Brick1: " + host + ":/bricks/brick0/" + "vol_brick0" + "\n", host) == 1
  {
    var dir, name := "/bricks/brick0/", "vol_brick0";
    assert dir + name + "\n" == "/bricks/brick0/vol_brick0\n";
    assert ":/bricks/brick0/" == ":" + dir;
    assert "Brick1: " + host + ":/bricks/brick0/" + name + "\n" == "Brick1: " + host + ":" + dir + name + "\n";
    OneBrickLineCount(host, dir, name);
  }

  lemma OneBrickLineCount(host: string, dir: string, name: string)
    requires host != "" && ':' !in host && ' ' !in host
    requires host[0] !in "Brick1: " && host[0] !in dir + name + "\n"
    ensures CountOccurrences("Brick1: " + host + ":" + dir + name + "\n", host) == 1
  {
    var rest := dir + name + "\n";
    assert "Brick1: " == "Brick" + "1" + ": ";
    assert "Brick1: " + host + ":" + dir + name + "\n" == "Brick" + "1" + ": " + host + ":" + rest;
    BrickLineCountsItsHost("1", host, rest);
  }

  /** One brick placed on a single peer: its directory is the peer's count. */
  lemma RenderOneBrick(text: string, vol: string, host: string, bi: nat)
    ensures RenderBricks(vol, Placement(text, [host], bi, 1))
            == " " + BrickSpec(vol, NewBrick(host, CountOccurrences(text, host), bi))
  {
    var bs := Placement(text, [host], bi, 1);
    assert bs[0] == NewBrickAt(text, [host], bi, 0);
    assert bs[..0] == [];
  }

  lemma SecondBrickSpec(host: string)
    ensures BrickSpec("vol", NewBrick(host, 1, 1)) == host + ":/bricks/brick1/vol_brick1"
  {
    assert NatToString(1) == "1";
    assert BrickName("vol", 1) == "vol_brick1";
  }

  /** The k-th new brick: peers taken in turn, the directory number being
      how often the peer appears in the volume information plus the number
      of full rounds over the peers before it; indices consecutive from `bi`. */
  function NewBrickAt(text: string, peers: seq<string>, bi: nat, k: nat): NewBrick
    requires |peers| > 0
  {
    var p := peers[k % |peers|];
    NewBrick(p, CountOccurrences(text, p) + k / |peers|, bi + k)
  }

  function Placement(text: string, peers: seq<string>, bi: nat, count: nat): (bs: seq<NewBrick>)
    requires |peers| > 0 || count == 0
    ensures |bs| == count
    ensures forall k :: 0 <= k < count ==> bs[k] == NewBrickAt(text, peers, bi, k)
  {
    seq(count, k requires 0 <= k < count => NewBrickAt(text, peers, bi, k))
  }

  /** Number of bricks range(bi, bi + nbricks) yields. */
  function BrickCount(nbricks: int): nat {
    if nbricks > 0 then nbricks else 0
  }

  /** One round over the peers later, a brick lands on the same peer, one
      directory further, with an index one round further. */
  lemma RoundRobin(text: string, peers: seq<string>, bi: nat, k: nat)
    requires |peers| > 0
    ensures var a := NewBrickAt(text, peers, bi, k);
            var b := NewBrickAt(text, peers, bi, k + |peers|);
            b.peer == a.peer && b.dir == a.dir + 1 && b.index == a.index + |peers|
  {
    DivModShift(k, |peers|);
  }

  lemma DivModShift(k: nat, n: nat)
    requires n > 0
    ensures (k + n) % n == k % n && (k + n) / n == k / n + 1
  {
    assert k + n == (k / n + 1) * n + k % n;
    DivModOf(k + n, n, k / n + 1, k % n);
  }

  /** Two of the first `count` new bricks on the same peer in the same directory. */
  ghost predicate Clash(text: string, peers: seq<string>, bi: nat, count: nat)
    requires |peers| > 0
  {
    exists j, k :: 0 <= j < k < count
      && NewBrickAt(text, peers, bi, j).peer == NewBrickAt(text, peers, bi, k).peer
      && NewBrickAt(text, peers, bi, j).dir == NewBrickAt(text, peers, bi, k).dir
  }

  /** A peer listed twice among those the first `count` bricks go to. */
  ghost predicate DuplicatePeer(peers: seq<string>, count: nat) {
    exists a, b :: 0 <= a < b < |peers| && b < count && peers[a] == peers[b]
  }

  /** The new bricks are pairwise on different directories of their peer
      exactly when the peers they are spread over (the first
      min(#peers, count)) are pairwise distinct: a peer listed twice gets two
      bricks in the same directory in the first round. */
  lemma NoClashIffDistinctPeers(text: string, peers: seq<string>, bi: nat, count: nat)
    requires |peers| > 0
    ensures !Clash(text, peers, bi, count) <==> !DuplicatePeer(peers, count)
  {
    var n := |peers|;
    if DuplicatePeer(peers, count) {
      var a, b :| 0 <= a < b < n && b < count && peers[a] == peers[b];
      SmallDivMod(a, n);
      SmallDivMod(b, n);
      assert NewBrickAt(text, peers, bi, a).peer == NewBrickAt(text, peers, bi, b).peer
          && NewBrickAt(text, peers, bi, a).dir == NewBrickAt(text, peers, bi, b).dir;
    }
    if Clash(text, peers, bi, count) {
      var j, k :| 0 <= j < k < count
        && NewBrickAt(text, peers, bi, j).peer == NewBrickAt(text, peers, bi, k).peer
        && NewBrickAt(text, peers, bi, j).dir == NewBrickAt(text, peers, bi, k).dir;
      ModBelow(j, n);
      ModBelow(k, n);
      SameRemainderDifferentQuotient(j, k, n);
      assert j % n != k % n;
      var a, b := if j % n < k % n then j % n else k % n, if j % n < k % n then k % n else j % n;
      assert 0 <= a < b < n && b < count && peers[a] == peers[b];
    }
  }

  lemma SmallDivMod(a: nat, n: nat)
    requires a < n
    ensures a % n == a && a / n == 0
  {
    DivModOf(a, n, 0, a);
  }

  lemma ModBelow(j: nat, n: nat)
    requires n > 0
    ensures j % n <= j && j % n < n
  {
  }

  lemma SameRemainderDifferentQuotient(j: nat, k: nat, n: nat)
    requires n > 0 && j != k
    ensures j % n == k % n ==> j / n != k / n
  {
    assert j == (j / n) * n + j % n;
    assert k == (k / n) * n + k % n;
  }

  // ---------------------------------------------------------------------
  // Rendering the brick list
  // ---------------------------------------------------------------------

  /** host:/bricks/brick<dir>/<vol>_brick<index>, the brick argument of add-brick. */
  function BrickSpec(vol: string, b: NewBrick): string {
    b.peer + ":" + BrickRoot + "/brick" + NatToString(b.dir) + "/" + BrickName(vol, b.index)
  }

  /** The accumulated brick list: each brick appended after a space. */
  function RenderBricks(vol: string, bs: seq<NewBrick>): string
    decreases |bs|
  {
    if |bs| == 0 then ""
    else RenderBricks(vol, bs[..|bs| - 1]) + " " + BrickSpec(vol, bs[|bs| - 1])
  }

  function Specs(vol: string, bs: seq<NewBrick>): (r: seq<string>)
    ensures |r| == |bs|
  {
    seq(|bs|, k requires 0 <= k < |bs| => BrickSpec(vol, bs[k]))
  }

  /** With space-free peer and volume names, the shell sees one word per
      brick, in order. */
  lemma {:induction false} RenderedBrickWords(vol: string, bs: seq<NewBrick>)
    requires ' ' !in vol
    requires forall k :: 0 <= k < |bs| ==> ' ' !in bs[k].peer
    ensures Words(RenderBricks(vol, bs)) == Specs(vol, bs)
    decreases |bs|
  {
    if |bs| == 0 {
      WordsOfEmpty();
    } else {
      var pre := bs[..|bs| - 1];
      var b := bs[|bs| - 1];
      RenderedBrickWords(vol, pre);
      WordsAround(RenderBricks(vol, pre), BrickSpec(vol, b));
      SpecIsWord(vol, b);
      assert Specs(vol, bs) == Specs(vol, pre) + [BrickSpec(vol, b)];
    }
  }

  lemma SpecIsWord(vol: string, b: NewBrick)
    requires ' ' !in vol && ' ' !in b.peer
    ensures Words(BrickSpec(vol, b)) == [BrickSpec(vol, b)]
  {
    var s := BrickSpec(vol, b);
    DigitsHaveNoSpace(NatToString(b.dir));
    DigitsHaveNoSpace(NatToString(b.index));
    assert ' ' !in s;
    WordsOfWord(s);
  }

  lemma DigitsHaveNoSpace(s: string)
    requires AllSatisfy(s, IsDigit)
    ensures ' ' !in s
  {
    forall i | 0 <= i < |s| ensures s[i] != ' ' {
      assert IsDigit(s[i]);
    }
  }

  /** The source's loop building the brick list: a peer cursor that wraps
      around the peers and a round counter bumped at each wrap. It builds
      exactly the rendered placement. */
  method BrickList(text: string, vol: string, peers: seq<string>, bi: nat, nbricks: int) returns (s: string)
    requires |peers| > 0 || nbricks <= 0
    ensures s == RenderBricks(vol, Placement(text, peers, bi, BrickCount(nbricks)))
  {
    var count := BrickCount(nbricks);
    var n := 0;
    var tempn := 0;
    s := "";
    var k := 0;
    while k < count
      invariant 0 <= k <= count
      invariant |peers| > 0 ==> n == k % |peers| && tempn == k / |peers|
      invariant s == RenderBricks(vol, Placement(text, peers, bi, k))
    {
      var sn := CountOccurrences(text, peers[n]) + tempn;
      var spec := peers[n] + ":" + BrickRoot + "/brick" + NatToString(sn) + "/" + vol + "_brick" + NatToString(bi + k);
      assert spec == BrickSpec(vol, NewBrick(peers[n], sn, bi + k));
      PlacementStep(text, vol, peers, bi, k);
      s := s + " " + spec;
      RoundRobinStep(k, |peers|);
      if n < |peers| - 1 {
        n := n + 1;
      } else {
        n := 0;
        tempn := tempn + 1;
      }
      k := k + 1;
    }
  }

  /** One more brick renders one more spec after a space. */
  lemma PlacementStep(text: string, vol: string, peers: seq<string>, bi: nat, k: nat)
    requires |peers| > 0
    ensures RenderBricks(vol, Placement(text, peers, bi, k + 1))
            == RenderBricks(vol, Placement(text, peers, bi, k)) + " " + BrickSpec(vol, NewBrickAt(text, peers, bi, k))
  {
    var after := Placement(text, peers, bi, k + 1);
    assert after[..k] == Placement(text, peers, bi, k);
  }

  /** The cursor update: move to the next peer, or wrap to the first and
      start a new round. */
  lemma RoundRobinStep(k: nat, n: nat)
    requires n > 0
    ensures k % n < n - 1 ==> (k + 1) % n == k % n + 1 && (k + 1) / n == k / n
    ensures k % n == n - 1 ==> (k + 1) % n == 0 && (k + 1) / n == k / n + 1
  {
    var q, r := k / n, k % n;
    assert k + 1 == q * n + (r + 1);
    if r < n - 1 {
      DivModOf(k + 1, n, q, r + 1);
    } else {
      assert k + 1 == (q + 1) * n + 0;
      DivModOf(k + 1, n, q + 1, 0);
    }
  }

  /** Division is determined by quotient and remainder. */
  lemma DivModOf(x: nat, n: nat, q: nat, r: nat)
    requires n > 0 && r < n && x == q * n + r
    ensures x / n == q && x % n == r
  {
    var q', r' := x / n, x % n;
    assert x == q' * n + r';
    assert (q - q') * n == r' - r;
    MulBounds(q - q', n);
  }

  lemma MulBounds(a: int, n: int)
    requires n > 0
    ensures a >= 1 ==> a * n >= n
    ensures a <= -1 ==> a * n <= -n
  {
    if a >= 1 {
      assert a * n == (a - 1) * n + n;
      assert (a - 1) * n >= 0;
    } else if a <= -1 {
      assert a * n == (a + 1) * n - n;
      assert (-(a + 1)) * n >= 0;
    }
  }

  // ---------------------------------------------------------------------
  // add-brick
  // ---------------------------------------------------------------------

  /** "replica N" / "stripe N" only when the count is not 1. */
  function CountOption(word: string, c: int): (o: string)
    ensures c == 1 <==> o == ""
  {
    if c != 1 then word + " " + IntToString(c) else ""
  }

  /** "gluster volume add-brick <vol> <replica option> <stripe option> <bricks>",
      the fields separated by single spaces. */
  function AddBrickCommand(vol: string, replica: int, stripe: int, bricks: string): string {
    AddBrickLine(vol, CountOption("replica", replica), CountOption("stripe", stripe), bricks)
  }

  function AddBrickLine(vol: string, rep: string, str: string, bricks: string): string {
    "gluster" + " " + ("volume" + " " + ("add-brick" + " " + (vol + " " + (rep + " " + (str + " " + bricks)))))
  }

  function CountWords(word: string, c: int): seq<string> {
    if c != 1 then [word, IntToString(c)] else []
  }

  /** What the shell sees: the volume, the replica and stripe options only
      when not 1, then one word per brick. */
  lemma AddBrickCommandWords(vol: string, replica: int, stripe: int, bs: seq<NewBrick>)
    requires vol != "" && ' ' !in vol
    requires forall k :: 0 <= k < |bs| ==> ' ' !in bs[k].peer
    ensures Words(AddBrickCommand(vol, replica, stripe, RenderBricks(vol, bs)))
            == ["gluster", "volume", "add-brick", vol] + CountWords("replica", replica)
               + CountWords("stripe", stripe) + Specs(vol, bs)
  {
    var rep := CountOption("replica", replica);
    var str := CountOption("stripe", stripe);
    var bricks := RenderBricks(vol, bs);
    AddBrickLineWords(vol, rep, str, bricks);
    CountOptionWords("replica", replica);
    CountOptionWords("stripe", stripe);
    RenderedBrickWords(vol, bs);
  }

  lemma AddBrickLineWords(vol: string, rep: string, str: string, bricks: string)
    requires vol != "" && ' ' !in vol
    ensures Words(AddBrickLine(vol, rep, str, bricks))
            == ["gluster", "volume", "add-brick", vol] + Words(rep) + Words(str) + Words(bricks)
  {
    FourWordsThenRest("gluster", "volume", "add-brick", vol, rep + " " + (str + " " + bricks));
    ThreeFieldWords(rep, str, bricks);
  }

  lemma CountOptionWords(word: string, c: int)
    requires word != "" && ' ' !in word
    ensures Words(CountOption(word, c)) == CountWords(word, c)
  {
    if c != 1 {
      WordsAround(word, IntToString(c));
      WordsOfWord(word);
      WordsOfWord(IntToString(c));
    } else {
      WordsOfEmpty();
    }
  }

  /** The replica and stripe counts read back from the command's words are
      the counts asked for. */
  lemma CountWordsReadBack(word: string, c: int)
    ensures |CountWords(word, c)| == 0 <==> c == 1
    ensures c != 1 ==> ParseInt(CountWords(word, c)[1]) == Some(c)
  {
    IntToStringRoundTrip(c);
  }

  /** The add-brick command for the bricks placed after the volume
      information `text`, numbered from `bi`. */
  function NewBricksCommand(text: string, vol: string, nbricks: int, replica: int, stripe: int,
                            peers: seq<string>, bi: nat): string
    requires |peers| > 0 || nbricks <= 0
  {
    AddBrickCommand(vol, replica, stripe, RenderBricks(vol, Placement(text, peers, bi, BrickCount(nbricks))))
  }

  /** What add_brick returns: the failed-query triple (-1, -1, -1) or the
      add-brick command's own result. */
  datatype AddBrickResult = QueryFailed | Ran(result: CmdResult)

  /** add_brick. The peers are the ones given (None: the configured peers),
      the node the one given or else the first node. The volume information
      is read first; if that fails the command is not built. The next index
      comes from the last brick of the volume (none: IndexError), a brick
      is needed from an empty peer list only when bricks are asked for
      (IndexError), and then add-brick runs once on the same node. */
  function AddBrick(cfg: Config, vol: string, nbricks: int, replica: int, stripe: int,
                    peers: Option<seq<string>>, mnode: string, run: Runner): (r: Traced<Outcome<AddBrickResult>>)
    requires mnode != "" || |cfg.nodes| > 0
    ensures var host := DefaultHost(mnode, cfg.nodes);
            |r.actions| >= 1 && r.actions[0] == Run(host, VolinfoQuery)
    ensures var host := DefaultHost(mnode, cfg.nodes);
            var q := run(host, VolinfoQuery);
            var ps := if peers.Some? then peers.value else cfg.peers;
            && (q.status != 0 ==> r.value == Returned(QueryFailed) && |r.actions| == 1)
            && (q.status == 0 ==> (r.value.Raised? <==> NextBrickIndex(q.stdout, vol).None?
                                                         || (nbricks > 0 && |ps| == 0)))
            && (r.value.Raised? ==> |r.actions| == 1)
            && (q.status == 0 && !r.value.Raised? ==> r.value.Returned? && r.value.value.Ran?)
            && (r.value.Returned? && r.value.value.Ran? ==>
                  && q.status == 0 && NextBrickIndex(q.stdout, vol).Some?
                  && var cmd := NewBricksCommand(q.stdout, vol, nbricks, replica, stripe, ps,
                                                 NextBrickIndex(q.stdout, vol).value);
                     r.actions == [Run(host, VolinfoQuery), Run(host, cmd)] && r.value.value.result == run(host, cmd))
  {
    var host := DefaultHost(mnode, cfg.nodes);
    var ps := if peers.Some? then peers.value else cfg.peers;
    var q := run(host, VolinfoQuery);
    AfterQuery(host, q, NextBrickIndex(q.stdout, vol), vol, nbricks, replica, stripe, ps, run)
  }

  /** The part of add_brick after the volume information `q` has been read
      on `host`, `next` being the index the listing gives for the first new
      brick. */
  function AfterQuery(host: string, q: CmdResult, next: Option<nat>, vol: string, nbricks: int,
                      replica: int, stripe: int, ps: seq<string>, run: Runner): (r: Traced<Outcome<AddBrickResult>>)
    ensures |r.actions| >= 1 && r.actions[0] == Run(host, VolinfoQuery)
    ensures q.status != 0 ==> r.value == Returned(QueryFailed) && |r.actions| == 1
    ensures q.status == 0 ==> (r.value.Raised? <==> next.None? || (nbricks > 0 && |ps| == 0))
    ensures r.value.Raised? ==> |r.actions| == 1
    ensures q.status == 0 && !r.value.Raised? ==> r.value.Returned? && r.value.value.Ran?
    ensures r.value.Returned? && r.value.value.Ran? ==>
              && q.status == 0 && next.Some?
              && var cmd := NewBricksCommand(q.stdout, vol, nbricks, replica, stripe, ps, next.value);
                 r.actions == [Run(host, VolinfoQuery), Run(host, cmd)] && r.value.value.result == run(host, cmd)
  {
    var first := [Run(host, VolinfoQuery)];
    if q.status != 0 then Traced(Returned(QueryFailed), first)
    else if next.None? || (nbricks > 0 && |ps| == 0) then Traced(Raised, first)
    else
      var cmd := NewBricksCommand(q.stdout, vol, nbricks, replica, stripe, ps, next.value);
      Traced(Returned(Ran(run(host, cmd))), first + [Run(host, cmd)])
  }

  // ---------------------------------------------------------------------
  // bring_down_brick
  // ---------------------------------------------------------------------

  /** The host of brick number `bindex` as volume info lists it (1-based). */
  function BrickHostQuery(vol: string, bindex: int): string {
    "gluster volume info " + vol + " | egrep \"^Brick" + IntToString(bindex)
      + ":\" | awk '{print $2}' | awk -F : '{print $1}'"
  }

  /** The pid file of the brick process named with `index`, as a glob suffix. */
  function PidFile(vol: string, index: int): string {
    BrickPrefix(vol) + IntToString(index) + ".pid"
  }

  /** Kills the brick process whose pid file belongs to the brick named with
      `index`: politely first, forcibly if that fails. */
  function KillCommand(vol: string, index: int): string {
    "pid=`cat /var/lib/glusterd/vols/" + vol + "/run/*" + PidFile(vol, index)
      + "` && kill -15 $pid     || kill -9 $pid"
  }

  /** bring_down_brick. The host query runs on the node given (or the first
      node); if it fails, nothing else is run and the result is False.
      Otherwise the kill runs on the host the query printed, trailing
      whitespace removed, against the pid file of the brick named with
      bindex - 1 (volume info counts from 1, brick names from 0); the result
      is True exactly when both commands exit with status 0. */
  function BringDownBrick(cfg: Config, vol: string, bindex: int, node: string, run: Runner): (r: Traced<bool>)
    requires node != "" || |cfg.nodes| > 0
    ensures var host := DefaultHost(node, cfg.nodes);
            var q := run(host, BrickHostQuery(vol, bindex));
            && |r.actions| >= 1 && r.actions[0] == Run(host, BrickHostQuery(vol, bindex))
            && (q.status != 0 ==> |r.actions| == 1 && !r.value)
            && (q.status == 0 ==>
                  var target := TrimRight(q.stdout);
                  r.actions == [Run(host, BrickHostQuery(vol, bindex)), Run(target, KillCommand(vol, bindex - 1))]
                  && (r.value <==> run(target, KillCommand(vol, bindex - 1)).status == 0))
  {
    var host := DefaultHost(node, cfg.nodes);
    var query := BrickHostQuery(vol, bindex);
    var q := run(host, query);
    if q.status != 0 then Traced(false, [Run(host, query)])
    else
      var target := TrimRight(q.stdout);
      var kill := KillCommand(vol, bindex - 1);
      Traced(run(target, kill).status == 0, [Run(host, query), Run(target, kill)])
  }

  /** The query prints the host followed by a newline; the kill then goes
      to exactly that host. */
  lemma QueriedHostIsTarget(h: string)
    requires |h| == 0 || NotSpace(h[|h| - 1])
    ensures TrimRight(h + "\n") == h
  {
    var s := h + "\n";
    assert s[|s| - 1] == '\n';
    assert s[..|s| - 1] == h;
    assert TrimRight(h) == h;
  }

  /** bring_down_brick takes down a brick add_brick placed. Volume info
      lists bricks from position 1 and add_brick numbers them from 0, so the
      k-th new brick sits at position bi + k + 1. When the host query at that
      position prints the brick's peer, the kill runs on that peer and reads
      the pid file named after the brick, and bring_down_brick reports
      exactly whether that kill succeeded. */
  lemma BringDownPlacedBrick(cfg: Config, vol: string, text: string, peers: seq<string>, bi: nat,
                             count: nat, k: nat, node: string, run: Runner)
    requires k < count && |peers| > 0
    requires node != "" || |cfg.nodes| > 0
    requires var b := Placement(text, peers, bi, count)[k];
             && (|b.peer| == 0 || NotSpace(b.peer[|b.peer| - 1]))
             && var q := run(DefaultHost(node, cfg.nodes), BrickHostQuery(vol, bi + k + 1));
                q.status == 0 && q.stdout == b.peer + "\n"
    ensures var b := Placement(text, peers, bi, count)[k];
            var r := BringDownBrick(cfg, vol, bi + k + 1, node, run);
            && |r.actions| == 2
            && r.actions[1] == Run(b.peer, KillCommand(vol, b.index))
            && PidFile(vol, b.index) == BrickName(vol, b.index) + ".pid"
            && (r.value <==> run(b.peer, KillCommand(vol, b.index)).status == 0)
  {
    var b := Placement(text, peers, bi, count)[k];
    QueriedHostIsTarget(b.peer);
    assert b.index == bi + k;
    assert IntToString(b.index) == NatToString(b.index);
  }

}
