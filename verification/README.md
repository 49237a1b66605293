# distaf file and brick helpers, modelled in Dafny

distaf is a distributed test framework for GlusterFS. Its `libs/file_ops.py` and
`libs/brick_ops.py` helpers run shell commands on cluster nodes and turn what
those commands print into Python values. This project models the deterministic
core of those helpers as pure Dafny functions and proves properties about them.
Every remote command result `(status, stdout, stderr)` is an input.

- **calculate_checksum** (`checksum.dfy`, module `Checksum`).
  - It builds the `sha256sum` command line.
  - It drops the last newline-separated segment of the output.
  - It matches each kept line, after `strip()`, against `^(\S+)\s+(\S+)`.
  - It builds the path → digest map, where a later line wins and any unmatched line gives None.
- **get_extended_attributes_info** (`xattr.dfy`, module `Xattr`).
  - It chooses between `getfattr -e <encoding>` and `getfattr -n <name>`.
  - It splits the output into blocks on blank lines and drops the last one.
  - It reads each block's lines:
    - a `#` line is a header matched by `.*file:\s(\S+).*`, and the last mark on the line wins;
    - any other line is split on `=`.
  - It builds the map from `"/" + path` to a map from attribute name to value.
- **get_filepath_from_rhsnode** (`xattr.dfy`).
  - It passes on the None of the attribute fetch.
  - A missing key raises KeyError.
  - It extracts paths from the pathinfo value with the pattern `.*?POSIX.*?:(\S+)\>`, modelled with its backtracking.
- **write_file** (`write_file.dfy`, module `WriteFile`).
  - It opens a session first in every mode.
  - The `echo`, `touch` and `dd` modes each build a shell command, and the result is True exactly when its exit status is 0.
  - `dd` without a size gives False and runs nothing.
- **add_brick** (`bricks.dfy`, module `Bricks`).
  - It reads the volume information.
  - The next brick number is the last `<vol>_brick<N>` match plus one.
  - It places the new bricks round-robin over the peers. Each directory number is the peer's occurrence count in the volume information plus the number of completed rounds.
  - It renders the brick list. The replica and stripe options appear only when their count is not 1.
- **bring_down_brick** (`bricks.dfy`).
  - It looks up the brick's host.
  - It kills the process named by the pid file of brick `bindex - 1`.
  - The result is True exactly when both commands succeed.

Python's string primitives live in `strings.dfy` (module `Strings`), in exactly the form the code uses them:
- `split` with a separator, and `join`;
- `strip` and `rstrip`;
- whitespace as `\s` and `strip()` see it on Python 2 byte strings: space, tab, newline, vertical tab, form feed and carriage return;
- `%d` and `int()` on digit strings;
- `re.findall` of a literal as non-overlapping leftmost counting.

`common.dfy` (module `Common`) holds the shared pieces:
- the command result;
- the remote `run` capability, as a function parameter;
- the record of remote actions (`Traced`), which lets a contract say that a command was never issued;
- the `Outcome` type: returned value, returned None, or a raised exception.

Some exceptions depend on what a remote command printed: an IndexError, NameError or KeyError caused by the output. These are modelled as an explicit `Raised` outcome, not excluded. Arguments whose absence would crash the helper before any command runs are preconditions. An example is an empty node list when no host is given.

## Model

| member | source | states |
|---|---|---|
| Checksum.ChecksumCommandWords | libs/file_ops.py:138 | The command is `sha256sum` followed by the files joined by spaces. When no file name holds a space, the shell sees exactly one word per file, in order. |
| Checksum.TwoTokens | libs/file_ops.py:147 | `re.search(r'^(\S+)\s+(\S+)', s)`: group 1 is the leading non-space run, then at least one whitespace character, then group 2 is the next non-space run. It has no contract of its own; Checksum.TwoTokensComplete and Checksum.TwoTokensSound state exactly which texts it accepts and what it captures. |
| Checksum.ChecksumEntry | libs/file_ops.py:147 | The pattern applied to `line.strip()`. It has no contract of its own; Checksum.BlankLineRejects and Checksum.DigestLineParses (through Checksum.ChecksumRoundTrip) state its result on blank lines and on sha256sum's lines. |
| Checksum.TwoTokensComplete | libs/file_ops.py:147 | Every text of the form token, whitespace, token, then nothing or whitespace matches `^(\S+)\s+(\S+)`. The first token is the digest and the second the path. |
| Checksum.TwoTokensSound | libs/file_ops.py:147 | Whatever the line pattern accepts decomposes as a non-space token, a whitespace run and a second token, followed by nothing or by whitespace. |
| Checksum.BuildChecksumMap | libs/file_ops.py:145-155 | The map exists exactly when every kept line matched; one unmatched line gives None. |
| Checksum.BuildChecksumMapBindings | libs/file_ops.py:152-153 | In a built map every matched path is a key, and each key is bound to the digest of the last line naming it. |
| Checksum.KeptLines | libs/file_ops.py:146 | Exactly the last newline-separated segment is dropped: the kept lines and a newline-free tail, joined by newlines, are the whole output. No kept line holds a newline. |
| Checksum.KeptLinesOfLines | libs/file_ops.py:146 | Output whose every line ends in a newline loses no line. |
| Checksum.BlankLineRejects | libs/file_ops.py:147-151 | A kept line of only whitespace (an empty line in the middle of the output) makes the whole result None. |
| Checksum.ParseChecksum | libs/file_ops.py:145-155 | The loop over the kept lines of stdout: None as soon as one line fails the pattern, otherwise the path → digest map. It has no contract of its own. Checksum.KeptLines, Checksum.BuildChecksumMap and Checksum.BuildChecksumMapBindings state its parts, and Checksum.ChecksumRoundTrip states its result on sha256sum's output. |
| Checksum.CalculateChecksum | libs/file_ops.py:135-155 | The command runs on the server given, or on the first node. A non-zero status gives None whatever stdout holds. Status 0 gives the parse of stdout. |
| Checksum.ChecksumRoundTrip | libs/file_ops.py:138-155 | Parsing the lines sha256sum prints (digest, two spaces, path, newline) for well-formed entries gives exactly the map those entries describe, a later entry winning. |
| Checksum.EntriesMapKeys | libs/file_ops.py:153 | The keys of the map are exactly the paths printed. |
| Checksum.EntriesMapSize | libs/file_ops.py:153 | With distinct paths, N output lines give a map with N keys. |
| Strings.JoinSplit | libs/file_ops.py:146 | Joining the pieces of `split(sep)` with sep gives back the text. |
| Strings.SplitLines | libs/file_ops.py:146 | Splitting newline-terminated lines on '\n' gives the lines and one empty last piece. |
| Strings.IntToStringRoundTrip | libs/brick_ops.py:28 | `int()` reads back every integer `%d` prints. |
| Strings.CountOccurrences | libs/brick_ops.py:34 | `len(re.findall(peer, volinfo))` with the peer read as literal text: non-overlapping matches, leftmost first. It has no contract of its own; Strings.OccurrenceCounted, Strings.AbsentNotCounted, Strings.CountOccurrencesConcat and Bricks.BrickLineCountsItsHost state its value. |
| Strings.OccurrenceCounted | libs/brick_ops.py:34 | A peer name that occurs in the volume information is counted at least once. |
| Strings.AbsentNotCounted | libs/brick_ops.py:34 | A non-empty peer name that never occurs counts zero. |
| Strings.CountOccurrencesConcat | libs/brick_ops.py:34 | Counting is additive over a cut that no occurrence can straddle: the part before the cut ends with a character the name does not hold. |
| Strings.FirstCharAbsentNotCounted | libs/brick_ops.py:34 | Text that lacks the name's first character holds no occurrence of it. |
| Strings.SplitOnLeftmost | libs/file_ops.py:185 | `split` cuts at the leftmost occurrence: in every piece but the last, followed by the separator, the separator does not start before the piece ends. |
| Strings.SplitOnAfterPiece | libs/file_ops.py:185 | Conversely, a piece in which the separator does not start before its end is cut off whole when the separator follows it. |
| Strings.JoinOnAppend | libs/file_ops.py:185-186 | Joining two non-empty lists puts one separator between their joins. |
| Xattr.GetfattrCommandWords | libs/file_ops.py:173-176 | With no attribute name the command is `getfattr -d -m . -e <encoding>`, otherwise `getfattr -d -m . -n <name>`, then one word per file. |
| Xattr.LastFileMark | libs/file_ops.py:188 | It finds the last position where `file:`, one whitespace character and a non-space character start, or reports that there is none. |
| Xattr.HeaderPath | libs/file_ops.py:188-192 | The header pattern matches exactly when such a mark exists. The captured path is a non-empty run of non-space characters. |
| Xattr.HeaderPathLastMark | libs/file_ops.py:188 | The greedy leading `.*` makes the last mark on the line the one whose path is captured. |
| Xattr.Classify | libs/file_ops.py:187-196 | How the loop reads one line: a line starting with '#' is a header, keyed by "/" + the pattern's capture or unmatched; any other line is an attribute line with `split('=')[0]` as name and `[1]`, if present, as value. It has no contract of its own; Xattr.ClassifyHeaderLine, Xattr.ClassifyAttrLine and Xattr.ClassifyLineWithoutValue state it on each kind of line. |
| Xattr.ClassifyHeaderLine | libs/file_ops.py:187-193 | The header getfattr prints, `# file: <path>`, is keyed by `"/" + path`. |
| Xattr.ClassifyAttrLine | libs/file_ops.py:195-196 | An attribute line's name is the text before the first '=' and its value the text up to the second '=', whatever follows. |
| Xattr.ClassifyLineWithoutValue | libs/file_ops.py:195-196 | A non-header line without '=' has no value to store. |
| Xattr.Step | libs/file_ops.py:187-196 | One iteration keeps the current key naming an entry of the map. What each kind of line does (a header resets its key to an empty map, an unmatched header returns None, an attribute line without '=' or before any header raises) is stated by Xattr.ParseKindsCharacterised and Xattr.BlockReplacesEntry. |
| Xattr.ParseKinds | libs/file_ops.py:184-196 | The loop over all lines keeps the current key naming an entry of the map. Its outcome and map are stated by Xattr.ParseKindsCharacterised, Xattr.BlockReplacesEntry and Xattr.ParseAllKinds. |
| Xattr.ParseKindsCharacterised | libs/file_ops.py:184-197 | The loop goes through exactly when every line is accepted. It returns None exactly when the first failing line is a header the pattern rejects, and raises otherwise. Once through, the outer keys are exactly the header keys and every stored pair was read from some attribute line. |
| Xattr.BlockReplacesEntry | libs/file_ops.py:192-196 | A header followed by attribute lines binds its key to exactly the map of those pairs (a later name wins), replacing what the key held, and leaves the other files alone. |
| Xattr.KeptBlocks | libs/file_ops.py:185 | The kept blocks and a tail without "\n\n", joined by "\n\n", are the whole output. |
| Xattr.KeptBlocksCharacterised | libs/file_ops.py:185 | No kept block holds "\n\n" and none ends with a newline. With the join above this fixes the blocks: exactly the last blank-line-separated segment is dropped. |
| Xattr.AttrOutputLines | libs/file_ops.py:185-186 | No line the loop examines holds a newline. |
| Xattr.AttrOutputLinesCharacterised | libs/file_ops.py:185-186 | The lines, joined with newlines, are the kept blocks joined with one newline each, and there are lines exactly when there are blocks: every line of every block, in order. |
| Xattr.ParseXattr | libs/file_ops.py:184-197 | The parse of getfattr's stdout into file key → attribute name → value. It has no contract of its own; Xattr.ParseDump states its result on getfattr's dump format, Xattr.ParsedValuesOneLine bounds its values, and Xattr.ParseKindsCharacterised states its outcome line by line. |
| Xattr.ParseDump | libs/file_ops.py:183-197 | The text getfattr -d prints for a list of files (a `# file: ` header, then name=value lines, then a blank line, per file) parses to exactly the map those files describe: "/" + path bound to its pairs, a later name and a later dump of the same path winning. |
| Xattr.DumpSplitsIntoBlocks | libs/file_ops.py:185 | Cutting such a dump at blank lines gives each file's block and one empty tail. |
| Xattr.DumpOutputLines | libs/file_ops.py:185-186 | The lines the loop reads from a dump are the files' lines, in order. |
| Xattr.DumpLinesKinds | libs/file_ops.py:187-196 | A file's header is read as its key and each of its attribute lines as its pair. |
| Xattr.ParseAllKinds | libs/file_ops.py:184-197 | The loop goes through the files' lines and builds the map the dump describes. |
| Xattr.ParsedValuesOneLine | libs/file_ops.py:195-196 | Every stored attribute value is newline-free. |
| Xattr.GetExtendedAttributesInfo | libs/file_ops.py:169-197 | The command runs on the resolved address of the server given, or of the first node. A non-zero status gives None whatever stdout holds. Status 0 gives the parse of stdout. |
| Xattr.LastCloser | libs/file_ops.py:221 | `(\S+)\>` backs off from the end of the non-space run to its last '>' after the first character, or fails when there is none. |
| Xattr.FirstPosix | libs/file_ops.py:221 | The lazy `.*?` before `POSIX` stops at the first occurrence at or after the scan position. |
| Xattr.FirstColon | libs/file_ops.py:221 | The lazy `.*?` before ':' stops at the first ':' from which the rest of the pattern matches. |
| Xattr.PosixPaths | libs/file_ops.py:221 | Every path `re.findall` returns is a non-empty run of non-space characters. |
| Xattr.PosixPathsEmpty | libs/file_ops.py:221 | No path is found exactly when no `POSIX` is followed by a ':' from which `:(\S+)>` matches. |
| Xattr.GetFilepathFromRhsnode | libs/file_ops.py:210-221 | The pathinfo attribute is fetched from the server given or the first client. A None from the fetch is passed on, and an exception from it propagates. A missing file or attribute key raises. Otherwise the result is the pattern's paths in the attribute value, each a non-space token. |
| WriteFile.EffectiveMode | libs/file_ops.py:28-29 | A call without a mode (the empty string) uses "open"; any other mode is kept as given. WriteFile.DefaultModeRunsNothing states what that default means for write_file. |
| WriteFile.ShellCommand | libs/file_ops.py:67-84 | `echo`, `touch` and `dd` with a size each build their command. `dd` without a size, `open` and unknown modes build none. |
| WriteFile.WriteFile | libs/file_ops.py:25-88 | Every mode first opens a root session on the server or the first node. A refused connection raises, because the cleanup closes a non-connection. A broken session gives False. After a completed session, a shell mode runs its one command and gives True exactly when that command exits 0. `dd` without a size gives False with no command. `open` and unknown modes give True. |
| WriteFile.WriteFileTrueMeansCommandsSucceeded | libs/file_ops.py:67-88 | A True result means every command in the trace exited 0 on the host it ran on. A False result after a completed session means some command failed, or `dd` had no size. |
| WriteFile.DefaultModeRunsNothing | libs/file_ops.py:28-66 | A write_file call that names no mode takes the "open" path: after a completed session it runs no shell command and returns True. |
| WriteFile.WriteFileCommands | libs/file_ops.py:67-86 | write_file runs at most one shell command: the mode's own, and only after a completed session. |
| WriteFile.TouchCommandWords | libs/file_ops.py:73 | The shell sees `touch <file>`. |
| WriteFile.EchoCommandWords | libs/file_ops.py:68 | The shell sees `echo`, the words of the contents, `>` and the file. |
| WriteFile.DdCommandWords | libs/file_ops.py:83 | The shell sees `dd if=/dev/zero of=<file> bs=<size> count=1`. |
| Bricks.BrickNumberAtShape | libs/brick_ops.py:28 | A match of `<vol>_brick([0-9]+)` at a position captures the maximal non-empty digit run after the prefix. |
| Bricks.BrickNumbers | libs/brick_ops.py:28 | `re.findall(vol + "_brick([0-9]+)", volinfo)`: the leftmost match's digits, then the scan resumes after them. It has no contract of its own; Bricks.BrickNumbersFound, Bricks.BrickNumbersDigits, Bricks.BrickNumbersEmpty, Bricks.BrickNumbersSkip, Bricks.BrickNumbersAtMatch and Bricks.BrickNumbersEndAt state its elements and their order. |
| Bricks.BrickNumbersFound | libs/brick_ops.py:28 | Every element `findall` returns is the digit run of a match at or after the scan's start. |
| Bricks.BrickNumbersDigits | libs/brick_ops.py:28 | Every element is a non-empty digit run, which `int()` accepts. |
| Bricks.BrickNumbersEmpty | libs/brick_ops.py:28 | The list is empty exactly when no match starts at or after the scan's start. |
| Bricks.NoMatchFromEverywhere | libs/brick_ops.py:28 | The position-by-position scan finds no match exactly when no position from the start holds one. |
| Bricks.BrickNumbersSkip | libs/brick_ops.py:28 | The scan passes over positions where no match starts. |
| Bricks.BrickNumbersAtMatch | libs/brick_ops.py:28 | A match where the scan stands is taken, and the scan resumes after its digits, so matches never overlap. |
| Bricks.BrickNumbersReach | libs/brick_ops.py:28 | When no match found before a position runs past it, the scan's list is those earlier matches followed by what a scan from that position finds. |
| Bricks.BrickNumbersEndAt | libs/brick_ops.py:28 | A match that no earlier match runs into, with no match after it, is the last element `findall` returns. |
| Bricks.NextBrickIndex | libs/brick_ops.py:28 | The first new index is at least 1. |
| Bricks.NextBrickIndexDefined | libs/brick_ops.py:28 | The first new index exists exactly when some brick of the volume is listed. |
| Bricks.LastMatchNumbers | libs/brick_ops.py:28 | When the last match the scan finds captures n, the first new index is `int(n) + 1`. |
| Bricks.BrickNameMatches | libs/brick_ops.py:28 | The name of brick n matches the pattern and captures n's digits, unless a digit follows it. |
| Bricks.NextIndexAfterBrickName | libs/brick_ops.py:28 | A listing whose last match of the volume's pattern is brick n's name numbers the next brick n + 1. This needs three conditions: no digit follows the name, no earlier match runs into it, and no match starts after it. |
| Bricks.NextIndexOfOneBrickListing | libs/brick_ops.py:28 | The volume information `Brick1: <host>:/bricks/brick0/vol_brick0` of volume `vol` numbers the next brick 1, for any host name without a 'v'. |
| Bricks.OneBrickListingExample | libs/brick_ops.py:28-36 | For the volume information `Brick1: <host>:/bricks/brick0/vol_brick0` of volume `vol`, with that host the only peer, the first new brick is numbered 1, the host is counted once, and one new brick renders as ` <host>:/bricks/brick1/vol_brick1`. The host name must satisfy the conditions under "## Left out"; `host1` does. |
| Bricks.NoMatchWithoutPrefixStart | libs/brick_ops.py:28 | No match starts where the pattern's first character is absent. |
| Bricks.BrickLineCountsItsHost | libs/brick_ops.py:34 | A volume-information line `Brick<pos>: <host>:<path>` counts its host exactly once, when neither the line's head nor the path can start the host's name. |
| Bricks.ListingCountsByLine | libs/brick_ops.py:34 | A host name without a newline is counted line by line over the volume information. |
| Bricks.NewBrickAt | libs/brick_ops.py:33-41 | The k-th new brick in closed form: peer k mod P, directory count(peer) + k div P, index bi + k. It has no contract of its own; Bricks.BrickList proves the source's cursor loop builds it, and Bricks.RoundRobin and Bricks.NoClashIffDistinctPeers state its properties. |
| Bricks.Placement | libs/brick_ops.py:33-41 | The new bricks in order: exactly `count` of them, the k-th being Bricks.NewBrickAt(k). Bricks.BrickList proves that the source's loop renders exactly this list. |
| Bricks.RoundRobin | libs/brick_ops.py:33-41 | One round over the peers later, a brick goes to the same peer, one directory further, with an index one round further. |
| Bricks.NoClashIffDistinctPeers | libs/brick_ops.py:33-41 | No two new bricks share peer and directory exactly when the peers they are spread over are pairwise distinct. |
| Bricks.RoundRobinStep | libs/brick_ops.py:37-41 | The cursor moves to the next peer, or wraps to 0 after the last peer and starts a new round, so it always stays within the peer list. |
| Bricks.BrickList | libs/brick_ops.py:29-41 | The loop builds exactly the rendered placement: brick k on peer k mod P, directory count(peer) + k div P, index bi + k. |
| Bricks.RenderedBrickWords | libs/brick_ops.py:35-36 | With space-free names, the brick list is one shell word per brick, in order. |
| Bricks.CountOption | libs/brick_ops.py:42-46 | The replica or stripe option is empty exactly when the count is 1. |
| Bricks.CountWordsReadBack | libs/brick_ops.py:43-46 | The count an option carries reads back as the count asked for. |
| Bricks.AddBrickCommandWords | libs/brick_ops.py:47-48 | The shell sees `gluster volume add-brick <vol>`, the replica and stripe options only when not 1, then the brick words. |
| Bricks.AddBrick | libs/brick_ops.py:17-49 | The volume information is read first, on the node given or the first node. A failed query returns (-1, -1, -1) and no add-brick is run. With no brick of the volume listed, or bricks asked of an empty peer list, the call raises. Otherwise add-brick runs once on the same node and its result is returned. |
| Bricks.BrickHostQuery | libs/brick_ops.py:60-61 | The command that prints the host of volume-info position `bindex`. It has no contract of its own; Bricks.BringDownBrick and Bricks.BringDownPlacedBrick state how its output is used. |
| Bricks.PidFile | libs/brick_ops.py:65-66 | The pid file suffix `<vol>_brick<index>.pid`. It has no contract of its own; Bricks.BringDownPlacedBrick states that it is the placed brick's name plus ".pid". |
| Bricks.KillCommand | libs/brick_ops.py:64-66 | The kill run against that pid file: SIGTERM, then SIGKILL if that fails. It has no contract of its own; Bricks.BringDownBrick and Bricks.BringDownPlacedBrick state where it runs and what its status means. |
| Bricks.BringDownBrick | libs/brick_ops.py:58-70 | A failed host query gives False with nothing else run. Otherwise the kill runs on the printed host with trailing whitespace removed, against the pid file of brick bindex - 1. The result is True exactly when the kill exits 0. |
| Bricks.QueriedHostIsTarget | libs/brick_ops.py:60-64 | A host printed with its newline is exactly the host the kill runs on. |
| Bricks.BringDownPlacedBrick | libs/brick_ops.py:60-66 | The brick that add_brick placed k-th from index bi is the one bring_down_brick kills when asked for volume-info position bi + k + 1, if the host query prints that brick's peer. The kill runs on that peer, against the pid file named after that brick, and the result is True exactly when the kill exits 0. |

## Left out

- Remote sessions are not modelled. The connection, directory creation and file write of `write_file` are summarised by the `SessionOutcome` input: refused, broken or completed.
- Remote commands are not executed. `tc.run` is the `run` parameter, and the model sees only its result.
- Name resolution is the `resolve` parameter (`socket.gethostbyname` in `get_extended_attributes_info`).
- Logging calls are left out; they only write messages.
- `remove_file` and the other helpers of the two files are not modelled.
- Dictionaries are modelled as maps, so Python's insertion order of keys is not represented.
- Regular expressions are read literally. The volume name in `<vol>_brick([0-9]+)` and the peer name whose occurrences are counted are treated as literal text. In the source they are patterns: a '.' in an IP address matches any character, so the source may count matches the model does not.
- Whitespace follows Python 2, which the scripts are written for. Under Python 3 the strings are Unicode, so `\s`, `strip()` and `rstrip()` would also treat characters such as U+0085, U+00A0 and U+2000 onwards as whitespace; that interpreter is not modelled.
- Bricks.NextIndexOfOneBrickListing: the example is stated for host names without the letter 'v', so that no match of `vol_brick` can start inside the host name. Other listings are covered by Bricks.NextIndexAfterBrickName and its conditions.
- Bricks.OneBrickListingExample: it has the same restriction on the host name, and the host's first character must not occur elsewhere in the listing line, so that the host is counted once. Other listings are covered by Bricks.NextIndexAfterBrickName and Bricks.BrickLineCountsItsHost.
- Xattr.ParseDump: it covers dumps in which every file has at least one attribute, every path is free of whitespace, and no attribute name or value holds '=' or a newline. Other output is covered by the line-level lemmas (Xattr.ParseKindsCharacterised).
- Python's default arguments become parameters the caller supplies. `write_file` takes the contents explicitly, where the source defaults `file_contents` to " ". `add_brick` takes `replica` and `stripe` explicitly, where the source defaults both to 1. The source's `peers=''` default is modelled as `None`, meaning "use the configured peers"; an explicit list, even an empty one, is `Some(list)`. Empty-string defaults of `create_mode`, `filesize`, `server` and `mnode` are kept as the empty string.
- `add_brick` takes replica and stripe as integers. The source's `int()` conversion of string arguments is not modelled.
- Xattr.GetFilepathFromRhsnode: the pathinfo pattern is modelled with '.' matching every character. This is exact for the values the parser stores, since no stored value holds a newline (Xattr.ParsedValuesOneLine).
- Xattr.PosixPaths: its contract states only the shape of each path; when the result is empty is stated by Xattr.PosixPathsEmpty. Neither restates, path by path, where each match lies; the function body does that.
- WriteFile.WriteFile: for `dd` without a size the code opens a session before checking the size, so the model records a session. It records no command. The model follows the code here, not the expectation that this case makes no remote call at all.
- Output-dependent crashes are results, not preconditions. These are: no `_brick<N>` match, an empty peer list when bricks are requested, an attribute line before any header or without '=', and a missing key in the pathinfo lookup. Each is modelled as the `Raised` outcome.
