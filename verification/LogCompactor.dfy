/**
 Compacting a test log: lines of high signal are kept, and of each section that a header opens only
 the first few blocks, with a note on how many more there were.
 */
module LogCompactor {
  const MAX_BLOCKS_PER_SECTION := 8

  const SECTION_HEADERS: set<string> := {
    "Implementation Diffs:",
    "Mapping Issues:",
    "Reviewed Divergence:",
    "Harness Warnings:",
    "Harness Failures:",
    "Zsh Diagnostic Corpus Drift:"
  }

  /** Each pattern for important lines starts with one of these texts. */
  const IMPORTANT_STARTS: set<string> := {
    "running ", "large corpus", "zsh diagnostic corpus ", "thread '", "test ", "failures:", "error: test failed",
    "make: ***", "Nonblocking issue buckets "
  }

  /** The patterns for fixture headers and for important lines. */
  datatype Patterns = Patterns(isFixtureHeader: string -> bool, isImportant: string -> bool) {
    /** Whatever the patterns take, important lines start like one of the patterns. */
    ghost predicate IsPlausible() {
      forall text :: isImportant(text) ==> exists start :: start in IMPORTANT_STARTS && start <= text
    }
  }

  /** The line without its line ending. */
  function Stripped(line: string): string {
    if line != "" && (line[|line| - 1] == '\r' || line[|line| - 1] == '\n') then Stripped(line[..|line| - 1]) else line
  }

  predicate IsHeader(line: string) {
    Stripped(line) in SECTION_HEADERS
  }

  predicate ShouldPrintLine(patterns: Patterns, line: string) {
    IsHeader(line) || patterns.isImportant(Stripped(line))
  }

  function SectionName(line: string): string {
    var stripped := Stripped(line);
    if stripped != "" && stripped[|stripped| - 1] == ':' then stripped[..|stripped| - 1] else stripped
  }

  predicate EndsSection(patterns: Patterns, name: string, line: string) {
    IsHeader(line) || (ShouldPrintLine(patterns, line) && Stripped(line) != "" && Stripped(line) != name)
  }

  function Decimal(n: nat): string {
    var digit := '0' + (n % 10) as char;
    if n < 10 then [digit] else Decimal(n / 10) + [digit]
  }

  function OmissionNote(count: nat, name: string): string {
    "... omitted " + Decimal(count) + " additional entries from " + name + "\n"
  }

  // The split into sections and blocks

  /** One more line of a section body: a fixture header starts a block, and a blank line does not. */
  function WithLine(patterns: Patterns, blocks: seq<seq<string>>, line: string): seq<seq<string>> {
    if patterns.isFixtureHeader(Stripped(line)) then blocks + [[line]]
    else if blocks == [] then if Stripped(line) == "" then [] else [[line]]
    else blocks[..|blocks| - 1] + [blocks[|blocks| - 1] + [line]]
  }

  /** The blocks of a section body. */
  function Blocks(patterns: Patterns, body: seq<string>): seq<seq<string>> {
    if body == [] then [] else WithLine(patterns, Blocks(patterns, body[..|body| - 1]), body[|body| - 1])
  }

  /** The blocks one after the other, each with a blank line behind it. */
  function Printed(blocks: seq<seq<string>>): seq<string> {
    if blocks == [] then [] else Printed(blocks[..|blocks| - 1]) + blocks[|blocks| - 1] + ["\n"]
  }

  function Shown(blocks: seq<seq<string>>): seq<seq<string>> {
    if |blocks| <= MAX_BLOCKS_PER_SECTION then blocks else blocks[..MAX_BLOCKS_PER_SECTION]
  }

  function PrintedSection(name: string, blocks: seq<seq<string>>): seq<string> {
    Printed(Shown(blocks)) +
    if |blocks| > MAX_BLOCKS_PER_SECTION then [OmissionNote(|blocks| - MAX_BLOCKS_PER_SECTION, name)] else []
  }

  /** The first line from `i` on that ends the section, or the end of the log. */
  function SectionEnd(patterns: Patterns, name: string, lines: seq<string>, i: nat): (end: nat)
    requires i <= |lines|
    ensures i <= end <= |lines|
    ensures forall k :: i <= k < end ==> !EndsSection(patterns, name, lines[k])
    ensures end < |lines| ==> EndsSection(patterns, name, lines[end])
    decreases |lines| - i
  {
    if i == |lines| || EndsSection(patterns, name, lines[i]) then i else SectionEnd(patterns, name, lines, i + 1)
  }

  /** The compacted log from line `i` on, outside of any section. */
  function Compacted(patterns: Patterns, lines: seq<string>, i: nat): seq<string>
    requires i <= |lines|
    decreases |lines| - i
  {
    if i == |lines| then []
    else if IsHeader(lines[i]) then
      var name := SectionName(lines[i]);
      var end := SectionEnd(patterns, name, lines, i + 1);
      [lines[i]] + PrintedSection(name, Blocks(patterns, lines[i + 1..end])) + Compacted(patterns, lines, end)
    else
      (if ShouldPrintLine(patterns, lines[i]) then [lines[i]] else []) + Compacted(patterns, lines, i + 1)
  }

  // The state machine

  class SectionState {
    var name: string
    var printedBlocks: nat
    var suppressedBlocks: nat
    var currentBlock: seq<string>

    constructor (name: string)
      ensures this.name == name && printedBlocks == suppressedBlocks == 0 && currentBlock == []
      ensures Counts([]) && WithCurrent([]) == []
    {
      this.name, printedBlocks, suppressedBlocks, currentBlock := name, 0, 0, [];
    }

    /** The counters stand for the blocks flushed so far. */
    ghost predicate Counts(flushed: seq<seq<string>>)
      reads this
    {
      printedBlocks == |Shown(flushed)| && printedBlocks + suppressedBlocks == |flushed|
    }

    /** All blocks of the section so far, the current one included. */
    ghost function WithCurrent(flushed: seq<seq<string>>): seq<seq<string>>
      reads this
    {
      if currentBlock == [] then flushed else flushed + [currentBlock]
    }

    method FlushBlock(ghost flushed: seq<seq<string>>) returns (output: seq<string>)
      requires Counts(flushed)
      modifies this`printedBlocks, this`suppressedBlocks, this`currentBlock
      ensures currentBlock == []
      ensures Counts(old(WithCurrent(flushed)))
      ensures Printed(Shown(flushed)) + output == Printed(Shown(old(WithCurrent(flushed))))
    {
      if currentBlock == [] {
        return [];
      }
      var block := currentBlock;
      currentBlock := [];
      ghost var all := flushed + [block];
      assert all[..|all| - 1] == flushed;
      if printedBlocks < MAX_BLOCKS_PER_SECTION {
        printedBlocks := printedBlocks + 1;
        output := block + ["\n"];
      } else {
        suppressedBlocks := suppressedBlocks + 1;
        output := [];
        assert Shown(all) == Shown(flushed);
      }
    }

    /** A line of the section body. */
    method TakeLine(patterns: Patterns, line: string, ghost flushed: seq<seq<string>>)
      returns (output: seq<string>, ghost nowFlushed: seq<seq<string>>)
      requires Counts(flushed) && (currentBlock == [] ==> flushed == [])
      modifies this`printedBlocks, this`suppressedBlocks, this`currentBlock
      ensures Counts(nowFlushed) && (currentBlock == [] ==> nowFlushed == [])
      ensures WithCurrent(nowFlushed) == WithLine(patterns, old(WithCurrent(flushed)), line)
      ensures Printed(Shown(nowFlushed)) == Printed(Shown(flushed)) + output
    {
      var stripped := Stripped(line);
      output, nowFlushed := [], flushed;
      if patterns.isFixtureHeader(stripped) {
        nowFlushed := WithCurrent(flushed);
        output := FlushBlock(flushed);
        currentBlock := [line];
      } else {
        if stripped == "" && currentBlock == [] {
          return [], [];
        }
        ghost var all := WithCurrent(flushed);
        assert if currentBlock == [] then all == [] && currentBlock + [line] == [line] else all[..|all| - 1] == flushed;
        currentBlock := currentBlock + [line];
      }
      assert Printed(Shown(flushed)) + [] == Printed(Shown(flushed));
    }

    method FinishSection(ghost flushed: seq<seq<string>>) returns (output: seq<string>)
      requires Counts(flushed)
      modifies this`printedBlocks, this`suppressedBlocks, this`currentBlock
      ensures Printed(Shown(flushed)) + output == PrintedSection(name, old(WithCurrent(flushed)))
    {
      output := FlushBlock(flushed);
      if suppressedBlocks > 0 {
        output := output + [OmissionNote(suppressedBlocks, name)];
      }
    }
  }

  method CompactLines(patterns: Patterns, lines: seq<string>) returns (output: seq<string>)
    ensures output == Compacted(patterns, lines, 0)
  {
    hide *;
    output := [];
    var section: SectionState? := null;
    var index := 0;
    ghost var header, flushed, before := 0, [], [];

    while index < |lines|
      invariant index <= |lines|
      invariant section == null ==> output + Compacted(patterns, lines, index) == Compacted(patterns, lines, 0)
      invariant section != null ==>
                  && fresh(section)
                  && header < index
                  && IsOpenAt(patterns, lines, header, index, section.name, section.WithCurrent(flushed))
                  && before + Compacted(patterns, lines, header) == Compacted(patterns, lines, 0)
                  && section.Counts(flushed) && (section.currentBlock == [] ==> flushed == [])
                  && output == before + [lines[header]] + Printed(Shown(flushed))
      decreases |lines| - index, if section != null then 1 else 0
    {
      var line := lines[index];
      if section != null {
        if EndsSection(patterns, section.name, line) {
          ghost var blocks := section.WithCurrent(flushed);
          var finished := section.FinishSection(flushed);
          SectionIsPrinted(
            patterns, lines, header, index, section.name, blocks, before, Printed(Shown(flushed)), finished);
          output := output + finished;
          section := null;
          // The line that ends the section is looked at again.
          continue;
        }
        OpenSectionGoesOn(patterns, lines, header, index, section.name, section.WithCurrent(flushed));
        var printed;
        printed, flushed := section.TakeLine(patterns, line, flushed);
        output := output + printed;
        index := index + 1;
        continue;
      }
      if IsHeader(line) {
        SectionOpens(patterns, lines, index);
        before, header, flushed := output, index, [];
        output := output + [line];
        section := new SectionState(SectionName(line));
      } else {
        LineIsOutside(patterns, lines, index);
        if ShouldPrintLine(patterns, line) {
          output := output + [line];
        }
      }
      index := index + 1;
    }
    NothingIsLeft(patterns, lines);
    if section != null {
      ghost var blocks := section.WithCurrent(flushed);
      var finished := section.FinishSection(flushed);
      SectionIsPrinted(patterns, lines, header, index, section.name, blocks, before, Printed(Shown(flushed)), finished);
      output := output + finished;
    }
  }

  /** The section that `lines[header]` opened is still open at `index`, and `blocks` are its blocks so far. */
  ghost predicate IsOpenAt(
      patterns: Patterns, lines: seq<string>, header: nat, index: nat, name: string, blocks: seq<seq<string>>)
  {
    && header < index <= |lines|
    && IsHeader(lines[header])
    && name == SectionName(lines[header])
    && blocks == Blocks(patterns, lines[header + 1..index])
    && forall k :: header < k < index ==> !EndsSection(patterns, name, lines[k])
  }

  lemma SectionOpens(patterns: Patterns, lines: seq<string>, header: nat)
    requires header < |lines| && IsHeader(lines[header])
    ensures IsOpenAt(patterns, lines, header, header + 1, SectionName(lines[header]), [])
    ensures Printed(Shown([])) == []
  {
  }

  lemma OpenSectionGoesOn(
      patterns: Patterns, lines: seq<string>, header: nat, index: nat, name: string, blocks: seq<seq<string>>)
    requires IsOpenAt(patterns, lines, header, index, name, blocks)
    requires index < |lines| && !EndsSection(patterns, name, lines[index])
    ensures IsOpenAt(patterns, lines, header, index + 1, name, WithLine(patterns, blocks, lines[index]))
  {
    var body := lines[header + 1..index + 1];
    assert body[..|body| - 1] == lines[header + 1..index];
  }

  lemma SectionIsPrinted(
      patterns: Patterns, lines: seq<string>, header: nat, end: nat, name: string, blocks: seq<seq<string>>,
      before: seq<string>, printed: seq<string>, finished: seq<string>)
    requires IsOpenAt(patterns, lines, header, end, name, blocks)
    requires end == |lines| || EndsSection(patterns, name, lines[end])
    requires printed + finished == PrintedSection(name, blocks)
    requires header < end
    ensures before + [lines[header]] + printed + finished + Compacted(patterns, lines, end) ==
            before + Compacted(patterns, lines, header)
  {
    hide PrintedSection, EndsSection;
    SectionEndsAt(patterns, name, lines, header + 1, end);
    Regroup(before, [lines[header]], printed, finished, Compacted(patterns, lines, end));
  }

  lemma Regroup(
      before: seq<string>, header: seq<string>, printed: seq<string>, finished: seq<string>, rest: seq<string>)
    ensures before + header + printed + finished + rest == before + (header + (printed + finished) + rest)
  {
  }

  lemma LineIsOutside(patterns: Patterns, lines: seq<string>, i: nat)
    requires i < |lines| && !IsHeader(lines[i])
    ensures Compacted(patterns, lines, i) ==
            (if ShouldPrintLine(patterns, lines[i]) then [lines[i]] else []) + Compacted(patterns, lines, i + 1)
  {
  }

  lemma NothingIsLeft(patterns: Patterns, lines: seq<string>)
    ensures Compacted(patterns, lines, |lines|) == []
  {
  }

  lemma {:induction false} SectionEndsAt(patterns: Patterns, name: string, lines: seq<string>, i: nat, end: nat)
    requires i <= end <= |lines|
    requires forall k :: i <= k < end ==> !EndsSection(patterns, name, lines[k])
    requires end == |lines| || EndsSection(patterns, name, lines[end])
    ensures SectionEnd(patterns, name, lines, i) == end
    decreases end - i
  {
    if i < end {
      SectionEndsAt(patterns, name, lines, i + 1, end);
    }
  }
}
