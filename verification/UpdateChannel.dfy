/** `SetUpdateChannel`: editing the `branch:` line of the `update:` block in the server's config text. */
module UpdateChannel {
  import opened Text

  datatype Written = Ok(text: string) | InvalidChannel | Unreadable | Unwritable

  const CHANNELS: set<string> := {"stable", "beta", "daily"}

  // ---------- lines ----------

  /** The line starts in the first column: no leading blank or tab. */
  predicate Flush(line: string) {
    line == "" || (line[0] != ' ' && line[0] != '\t')
  }

  predicate IsHeader(line: string) { TrimSpace(line) == "update:" && Flush(line) }

  /** A non-blank line in the first column ends the block. */
  predicate EndsBlock(line: string) { Flush(line) && TrimSpace(line) != "" }

  predicate IsBranch(line: string) { "branch:" <= TrimSpace(line) }

  function BranchLine(channel: string): string { "  branch: " + channel }

  /** Where the scan stops: before the line that ends the block, or at the block's branch line. */
  datatype Spot = Insert(at: nat) | Replace(at: nat) | Nowhere

  function Find(lines: seq<string>, i: nat, inBlock: bool): (r: Spot)
    requires i <= |lines|
    ensures !r.Nowhere? ==> i <= r.at < |lines|
    decreases |lines| - i
  {
    if i == |lines| then Nowhere
    else if IsHeader(lines[i]) then Find(lines, i + 1, true)
    else if inBlock && EndsBlock(lines[i]) then Insert(i)
    else if inBlock && IsBranch(lines[i]) then Replace(i)
    else Find(lines, i + 1, inBlock)
  }

  function SetLines(lines: seq<string>, channel: string): seq<string> {
    match Find(lines, 0, false)
    case Insert(i) => lines[..i] + [BranchLine(channel)] + lines[i..]
    case Replace(i) => lines[i := BranchLine(channel)]
    case Nowhere => lines + ["update:", BranchLine(channel)]
  }

  function SetText(text: string, channel: string): string {
    Join(SetLines(Split(text, '\n'), channel), '\n')
  }

  /** How lines are read. The header is `update:` in the first column; another line with text there ends the
      block; a line of the block that begins with `branch:`, blanks aside, is its branch line. */
  lemma LinesRead(line: string, channel: string)
    ensures IsHeader(line) <==> TrimSpace(line) == "update:" && line != "" && line[0] != ' ' && line[0] != '\t'
    ensures EndsBlock(line) <==> TrimSpace(line) != "" && line != "" && line[0] != ' ' && line[0] != '\t'
    ensures IsBranch(line) <==> |TrimSpace(line)| >= 7 && TrimSpace(line)[..7] == "branch:"
    ensures BranchLine(channel) == "  branch: " + channel
  {
    assert TrimSpace("") == "";
  }

  /** Line `k` stands after a header and is one at which the scan stops. */
  ghost predicate Stops(lines: seq<string>, k: int) {
    0 <= k < |lines| && !IsHeader(lines[k]) && (EndsBlock(lines[k]) || IsBranch(lines[k])) &&
    exists h :: 0 <= h < k && IsHeader(lines[h])
  }

  /** The scan stops at the first line after a header that ends the block or is its branch line. */
  lemma FirstStop(lines: seq<string>)
    ensures var spot := Find(lines, 0, false);
      && (spot.Nowhere? <==> forall k :: !Stops(lines, k))
      && (!spot.Nowhere? ==> Stops(lines, spot.at) && forall k :: k < spot.at ==> !Stops(lines, k))
      && (spot.Insert? ==> EndsBlock(lines[spot.at])) && (spot.Replace? ==> !EndsBlock(lines[spot.at]))
  {
    StopFrom(lines, 0, false);
  }

  lemma {:induction false} StopFrom(lines: seq<string>, i: nat, inBlock: bool)
    requires i <= |lines| && (inBlock <==> exists h :: 0 <= h < i && IsHeader(lines[h]))
    requires forall k :: k < i ==> !Stops(lines, k)
    ensures var spot := Find(lines, i, inBlock);
      && (spot.Nowhere? <==> forall k :: !Stops(lines, k))
      && (!spot.Nowhere? ==> Stops(lines, spot.at) && forall k :: k < spot.at ==> !Stops(lines, k))
      && (spot.Insert? ==> EndsBlock(lines[spot.at])) && (spot.Replace? ==> !EndsBlock(lines[spot.at]))
    decreases |lines| - i
  {
    hide IsHeader, EndsBlock, IsBranch;
    if i < |lines| && !Stops(lines, i) { StopFrom(lines, i + 1, inBlock || IsHeader(lines[i])); }
  }

  /** `SetUpdateChannel` as it runs, with the file's content given if it can be read; `Ok` holds the text
      that was written back. */
  method SetUpdateChannel(channel: string, file: Option<string>, writable: bool) returns (r: Written)
    ensures channel != "stable" && channel != "beta" && channel != "daily" ==> r == InvalidChannel
    ensures r.InvalidChannel? ==> channel != "stable" && channel != "beta" && channel != "daily"
    ensures channel !in CHANNELS ==> r == InvalidChannel
    ensures channel in CHANNELS && file.None? ==> r == Unreadable
    ensures channel in CHANNELS && file.Some? ==> r == if writable then Ok(SetText(file.value, channel)) else Unwritable
  {
    if channel !in CHANNELS { return InvalidChannel; }
    if file.None? { return Unreadable; }
    var lines := Split(file.value, '\n');
    ghost var given := lines;
    ghost var spot := Find(given, 0, false);
    var found, inUpdateBlock := false, false;
    var i := 0;
    while i < |lines| && !found
      invariant !found ==> i <= |lines| && lines == given && spot == Find(given, i, inUpdateBlock)
      invariant found ==> !spot.Nowhere? && lines == SetLines(given, channel)
      decreases |given| - i, !found
    {
      var line := lines[i];
      var trimmed := TrimSpace(line);
      if trimmed == "update:" && Flush(line) {
        inUpdateBlock := true;
      } else if inUpdateBlock {
        if Flush(line) && trimmed != "" {
          lines := lines[..i] + [BranchLine(channel)] + lines[i..];
          found := true;
        } else if "branch:" <= trimmed {
          lines := lines[i := BranchLine(channel)];
          found := true;
        }
      }
      i := i + 1;
    }
    if !found { lines := lines + ["update:", BranchLine(channel)]; }
    var newData := Join(lines, '\n');
    return if writable then Ok(newData) else Unwritable;
  }

  // ---------- the written line ----------

  /** Non-blank first and last characters, and no line break. */
  predicate IsPlain(s: string) {
    s != [] && !IsSpace(s[0]) && !IsSpace(s[|s| - 1]) && '\n' !in s
  }

  lemma ChannelIsPlain(channel: string)
    requires channel in CHANNELS
    ensures IsPlain(channel)
  {
  }

  lemma TrimPlain(s: string)
    requires IsPlain(s)
    ensures TrimSpace(s) == s
  {
  }

  /** A leading space is trimmed off. */
  lemma TrimSpaceAhead(t: string)
    ensures TrimSpace([' '] + t) == TrimSpace(t)
  {
    hide TrimRightSpace;
    assert ([' '] + t)[1..] == t;
  }

  lemma BranchText(channel: string)
    requires IsPlain(channel)
    ensures IsPlain("branch: " + channel)
  {
    var prefix := "branch: ";
    assert '\n' !in prefix && prefix[0] == 'b';
    assert (prefix + channel)[|prefix + channel| - 1] == channel[|channel| - 1];
  }

  lemma BranchLineRead(channel: string)
    requires IsPlain(channel)
    ensures TrimSpace(BranchLine(channel)) == "branch: " + channel && '\n' !in BranchLine(channel)
    ensures !Flush(BranchLine(channel))
  {
    hide TrimSpace;
    BranchText(channel);
    var text := "branch: " + channel;
    TrimPlain(text);
    TrimSpaceAhead(text);
    TrimSpaceAhead([' '] + text);
    assert BranchLine(channel) == [' '] + ([' '] + text);
  }

  lemma BranchLineKind(channel: string)
    requires IsPlain(channel)
    ensures var line := BranchLine(channel);
      !IsHeader(line) && !EndsBlock(line) && IsBranch(line) && '\n' !in line
  {
    hide TrimSpace, BranchLine, IsPlain;
    BranchLineRead(channel);
  }

  lemma HeaderRead()
    ensures IsHeader("update:") && '\n' !in "update:"
  {
    TrimPlain("update:");
  }

  // ---------- finding it again ----------

  /** Lines that agree up to the spot, with a written branch line there: the scan stops at that line. */
  lemma {:induction false} FindWritten(lines: seq<string>, after: seq<string>, i: nat, inBlock: bool, k: nat, channel: string)
    requires channel in CHANNELS && i <= k < |after| && k < |lines|
    requires Find(lines, i, inBlock) == Insert(k) || Find(lines, i, inBlock) == Replace(k)
    requires after[..k] == lines[..k] && after[k] == BranchLine(channel)
    ensures Find(after, i, inBlock) == Replace(k)
    decreases k - i
  {
    hide IsHeader, EndsBlock, IsBranch, BranchLine;
    ChannelIsPlain(channel);
    BranchLineKind(channel);
    if i < k {
      assert after[i] == after[..k][i] == lines[..k][i] == lines[i];
      var inNext := inBlock || IsHeader(lines[i]);
      FindWritten(lines, after, i + 1, inNext, k, channel);
    }
  }

  lemma {:induction false} FindAppended(lines: seq<string>, after: seq<string>, i: nat, inBlock: bool, channel: string)
    requires channel in CHANNELS && i <= |lines| && Find(lines, i, inBlock) == Nowhere
    requires after == lines + ["update:", BranchLine(channel)]
    ensures Find(after, i, inBlock) == Replace(|lines| + 1)
    decreases |lines| - i
  {
    hide IsHeader, EndsBlock, IsBranch, BranchLine;
    ChannelIsPlain(channel);
    BranchLineKind(channel);
    HeaderRead();
    if i < |lines| {
      assert after[i] == lines[i];
      var inNext := inBlock || IsHeader(lines[i]);
      FindAppended(lines, after, i + 1, inNext, channel);
    } else {
      assert after[i] == "update:" && after[i + 1] == BranchLine(channel);
      assert Find(after, i + 1, true) == Replace(i + 1);
    }
  }

  /** Where the branch line stands after setting. */
  function WrittenAt(lines: seq<string>): nat {
    match Find(lines, 0, false) case Insert(i) => i case Replace(i) => i case Nowhere => |lines| + 1
  }

  lemma FoundAgain(lines: seq<string>, channel: string)
    requires channel in CHANNELS
    ensures var k, after := WrittenAt(lines), SetLines(lines, channel);
      k < |after| && after[k] == BranchLine(channel) && Find(after, 0, false) == Replace(k)
  {
    hide BranchLine;
    var after := SetLines(lines, channel);
    var spot := Find(lines, 0, false);
    if spot.Nowhere? {
      FindAppended(lines, after, 0, false, channel);
    } else {
      FindWritten(lines, after, 0, false, spot.at, channel);
    }
  }

  // ---------- the laws ----------

  /** Setting twice is setting the second time, line by line. */
  lemma OverwriteLines(lines: seq<string>, first: string, second: string)
    requires first in CHANNELS && second in CHANNELS
    ensures SetLines(SetLines(lines, first), second) == SetLines(lines, second)
  {
    hide Find, BranchLine;
    FoundAgain(lines, first);
  }

  /** No line holds a line break. */
  ghost predicate Unbroken(lines: seq<string>) {
    forall i :: 0 <= i < |lines| ==> '\n' !in lines[i]
  }

  lemma UnbrokenParts(lines: seq<string>, k: nat, line: string)
    requires Unbroken(lines) && k <= |lines| && '\n' !in line
    ensures Unbroken(lines[..k] + [line] + lines[k..])
    ensures k < |lines| ==> Unbroken(lines[k := line])
    ensures Unbroken(lines + ["update:", line])
  {
    assert '\n' !in "update:";
  }

  lemma LinesAreLines(lines: seq<string>, channel: string)
    requires channel in CHANNELS && |lines| >= 1 && Unbroken(lines)
    ensures |SetLines(lines, channel)| >= 1 && Unbroken(SetLines(lines, channel))
  {
    hide Find, BranchLine, CHANNELS, Unbroken;
    ChannelIsPlain(channel);
    BranchLineRead(channel);
    var spot := Find(lines, 0, false);
    UnbrokenParts(lines, if spot.Nowhere? then 0 else spot.at, BranchLine(channel));
  }

  /** The lines of the text written are the lines set. */
  lemma SplitSetText(text: string, channel: string)
    requires channel in CHANNELS
    ensures Split(SetText(text, channel), '\n') == SetLines(Split(text, '\n'), channel)
  {
    hide SetLines;
    SplitPartsFree(text, '\n');
    LinesAreLines(Split(text, '\n'), channel);
    SplitJoin(SetLines(Split(text, '\n'), channel), '\n');
  }

  /** Overwrite law: for every file text, setting one channel and then another gives exactly the
      text of setting the second alone. */
  lemma OverwriteText(text: string, first: string, second: string)
    requires first in CHANNELS && second in CHANNELS
    ensures SetText(SetText(text, first), second) == SetText(text, second)
  {
    hide SetLines;
    SplitSetText(text, first);
    OverwriteLines(Split(text, '\n'), first, second);
  }

  /** What a reader of the block finds: the text after `branch:` on the first such line in it. */
  function ReadBranch(text: string): Option<string> {
    var lines := Split(text, '\n');
    match Find(lines, 0, false)
    case Replace(i) => if IsBranch(lines[i]) then Some(TrimSpace(TrimSpace(lines[i])[7..])) else None
    case _ => None
  }

  /** The channel set is the channel read. */
  lemma ReadsBack(text: string, channel: string)
    requires channel in CHANNELS
    ensures ReadBranch(SetText(text, channel)) == Some(channel)
  {
    hide Find, SetText, SetLines, TrimSpace, BranchLine, CHANNELS;
    SplitSetText(text, channel);
    FoundAgain(Split(text, '\n'), channel);
    ChannelIsPlain(channel);
    BranchLineRead(channel);
    BranchLineKind(channel);
    ValueRead(channel);
  }

  lemma ValueRead(channel: string)
    requires IsPlain(channel)
    ensures TrimSpace(("branch: " + channel)[7..]) == channel
  {
    hide TrimSpace;
    TrimPlain(channel);
    TrimSpaceAhead(channel);
    assert ("branch: " + channel)[7..] == [' '] + channel;
  }

  /** A text whose branch line is already the one written is left as it is. */
  lemma AlreadySet(text: string, channel: string)
    requires var lines := Split(text, '\n'); var spot := Find(lines, 0, false);
      spot.Replace? && lines[spot.at] == BranchLine(channel)
    ensures SetText(text, channel) == text
  {
    hide Find, BranchLine;
    JoinSplit(text, '\n');
    var lines := Split(text, '\n');
    assert lines[Find(lines, 0, false).at := BranchLine(channel)] == lines;
  }

  /** Everything else is kept in order: taking the written line out of the result, and an appended
      header with it, leaves the given lines without the branch line that was replaced. */
  lemma OthersKept(lines: seq<string>, channel: string)
    ensures var spot, k, after := Find(lines, 0, false), WrittenAt(lines), SetLines(lines, channel);
      && k < |after| && after[k] == BranchLine(channel)
      && (spot.Insert? ==> after[..k] + after[k + 1..] == lines)
      && (spot.Replace? ==> after[..k] + after[k + 1..] == lines[..k] + lines[k + 1..] && IsBranch(lines[k]))
      && (spot.Nowhere? ==> after[..k - 1] + after[k + 1..] == lines && after[k - 1] == "update:")
  {
    hide Find, IsBranch, BranchLine, EndsBlock;
    FindMeaning(lines, 0, false);
  }

  lemma {:induction false} FindMeaning(lines: seq<string>, i: nat, inBlock: bool)
    requires i <= |lines|
    ensures var spot := Find(lines, i, inBlock);
      && (spot.Replace? ==> IsBranch(lines[spot.at]) && !EndsBlock(lines[spot.at]))
      && (spot.Insert? ==> EndsBlock(lines[spot.at]))
    decreases |lines| - i
  {
    hide IsHeader, EndsBlock, IsBranch;
    if i < |lines| {
      FindMeaning(lines, i + 1, inBlock || IsHeader(lines[i]));
    }
  }
}
