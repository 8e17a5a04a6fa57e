/** What a compacted log keeps, and what the blocks of a section are. */
module LogCompactorProperties {
  import opened LogCompactor

  // Blocks

  /** The section body from its first line that can start a block. */
  function FromFirstBlock(patterns: Patterns, body: seq<string>): seq<string> {
    if body != [] && Stripped(body[0]) == "" && !patterns.isFixtureHeader("") then FromFirstBlock(patterns, body[1..])
    else body
  }

  function Flattened(blocks: seq<seq<string>>): seq<string> {
    if blocks == [] then [] else Flattened(blocks[..|blocks| - 1]) + blocks[|blocks| - 1]
  }

  /** The blocks make up the body, and fixture headers stand exactly where a block starts, except perhaps the first. */
  ghost predicate IsSplit(patterns: Patterns, body: seq<string>, blocks: seq<seq<string>>) {
    Flattened(blocks) == FromFirstBlock(patterns, body) && AreBlocks(patterns, blocks)
  }

  ghost predicate AreBlocks(patterns: Patterns, blocks: seq<seq<string>>) {
    blocks != [] ==>
      var front, last := blocks[..|blocks| - 1], blocks[|blocks| - 1];
      && AreBlocks(patterns, front)
      && IsBlock(patterns, last)
      && (front != [] ==> patterns.isFixtureHeader(Stripped(last[0])))
  }

  ghost predicate IsBlock(patterns: Patterns, block: seq<string>) {
    block != [] && forall k :: 1 <= k < |block| ==> !patterns.isFixtureHeader(Stripped(block[k]))
  }

  lemma {:induction false} FromFirstBlockOfOneMore(patterns: Patterns, body: seq<string>, line: string)
    ensures FromFirstBlock(patterns, body + [line]) ==
            if FromFirstBlock(patterns, body) == [] && Stripped(line) == "" && !patterns.isFixtureHeader("") then []
            else FromFirstBlock(patterns, body) + [line]
    decreases |body|
  {
    if body == [] {
      assert body + [line] == [line];
      assert [line][1..] == [];
    } else {
      assert (body + [line])[1..] == body[1..] + [line];
      FromFirstBlockOfOneMore(patterns, body[1..], line);
    }
  }

  lemma SplitOfOneMore(patterns: Patterns, body: seq<string>, blocks: seq<seq<string>>, line: string)
    requires IsSplit(patterns, body, blocks)
    ensures IsSplit(patterns, body + [line], WithLine(patterns, blocks, line))
  {
    hide FromFirstBlock, Stripped;
    FromFirstBlockOfOneMore(patterns, body, line);
    if patterns.isFixtureHeader(Stripped(line)) {
      assert (blocks + [[line]])[..|blocks|] == blocks;
    } else if blocks != [] {
      var before, last := blocks[..|blocks| - 1], blocks[|blocks| - 1];
      assert (before + [last + [line]])[..|before|] == before;
      assert Flattened(before) + (last + [line]) == Flattened(blocks) + [line];
    }
  }

  /** The computed blocks are a split. */
  lemma {:induction false} BlocksAreASplit(patterns: Patterns, body: seq<string>)
    ensures IsSplit(patterns, body, Blocks(patterns, body))
    decreases |body|
  {
    if body != [] {
      var front, line := body[..|body| - 1], body[|body| - 1];
      assert body == front + [line];
      BlocksAreASplit(patterns, front);
      SplitOfOneMore(patterns, front, Blocks(patterns, front), line);
    }
  }

  /** The split without its last line. */
  function WithoutLast(blocks: seq<seq<string>>): seq<seq<string>>
    requires blocks != []
  {
    var last := blocks[|blocks| - 1];
    if |last| <= 1 then blocks[..|blocks| - 1] else blocks[..|blocks| - 1] + [last[..|last| - 1]]
  }

  lemma EndsAlike(a: seq<string>, last: seq<string>, front: seq<string>, line: string)
    requires last != [] && a + last == front + [line]
    ensures last == last[..|last| - 1] + [line] && a + last[..|last| - 1] == front
  {
    var both := a + last;
    assert both[|both| - 1] == last[|last| - 1];
    assert both[..|both| - 1] == front;
    assert both[..|both| - 1] == a + last[..|last| - 1];
  }

  lemma SplitOfOneLess(patterns: Patterns, body: seq<string>, line: string, blocks: seq<seq<string>>)
    requires IsSplit(patterns, body + [line], blocks) && blocks != []
    ensures IsSplit(patterns, body, WithoutLast(blocks))
    ensures blocks == WithLine(patterns, WithoutLast(blocks), line)
  {
    hide FromFirstBlock, Stripped;
    FromFirstBlockOfOneMore(patterns, body, line);
    var before, last := blocks[..|blocks| - 1], blocks[|blocks| - 1];
    assert IsBlock(patterns, last);
    EndsAlike(Flattened(before), last, FromFirstBlock(patterns, body), line);
    var block := last[..|last| - 1];
    if block == [] {
      assert Flattened(before) + block == Flattened(before);
      assert last == [line];
    } else {
      assert (before + [block])[..|before|] == before;
      assert !patterns.isFixtureHeader(Stripped(last[|last| - 1]));
      assert (before + [block])[..|before|] + [block + [line]] == blocks;
    }
  }

  /** There is no other split. */
  lemma {:induction false} SplitIsUnique(patterns: Patterns, body: seq<string>, blocks: seq<seq<string>>)
    requires IsSplit(patterns, body, blocks)
    ensures blocks == Blocks(patterns, body)
    decreases |body|
  {
    if body == [] {
      NoBlocks(patterns, blocks);
    } else {
      var front, line := body[..|body| - 1], body[|body| - 1];
      assert body == front + [line];
      if blocks == [] {
        FromFirstBlockOfOneMore(patterns, front, line);
        SplitIsUnique(patterns, front, []);
      } else {
        SplitOfOneLess(patterns, front, line, blocks);
        SplitIsUnique(patterns, front, WithoutLast(blocks));
      }
    }
  }

  lemma NoBlocks(patterns: Patterns, blocks: seq<seq<string>>)
    requires Flattened(blocks) == [] && AreBlocks(patterns, blocks)
    ensures blocks == []
  {
  }

  /** The blocks of a section are its only split at fixture headers. */
  lemma BlocksAreTheSplit(patterns: Patterns, body: seq<string>, blocks: seq<seq<string>>)
    ensures IsSplit(patterns, body, blocks) <==> blocks == Blocks(patterns, body)
  {
    BlocksAreASplit(patterns, body);
    if IsSplit(patterns, body, blocks) {
      SplitIsUnique(patterns, body, blocks);
    }
  }

  // What a section prints

  /** The number that decimal digits stand for. */
  function ValueOf(digits: string): int {
    if digits == "" then 0
    else 10 * ValueOf(digits[..|digits| - 1]) + (digits[|digits| - 1] as int - '0' as int)
  }

  /** A number is written in decimal digits, the first of which is 0 only for zero itself. */
  lemma {:induction false} DigitsStandForNumber(n: nat)
    ensures ValueOf(Decimal(n)) == n
    ensures Decimal(n) != "" && forall digit :: digit in Decimal(n) ==> '0' <= digit <= '9'
    ensures Decimal(n)[0] == '0' <==> n == 0
  {
    var digit := '0' + (n % 10) as char;
    if n < 10 {
      assert [digit][..0] == "";
    } else {
      assert (Decimal(n / 10) + [digit])[..|Decimal(n)| - 1] == Decimal(n / 10);
      DigitsStandForNumber(n / 10);
    }
  }

  /** Blocks are printed in order. */
  lemma {:induction false} PrintedInTurn(first: seq<seq<string>>, second: seq<seq<string>>)
    ensures Printed(first + second) == Printed(first) + Printed(second)
    decreases |second|
  {
    if second == [] {
      assert first + second == first;
    } else {
      assert (first + second)[..|first + second| - 1] == first + second[..|second| - 1];
      PrintedInTurn(first, second[..|second| - 1]);
    }
  }

  lemma PrintedOne(block: seq<string>)
    ensures Printed([block]) == block + ["\n"]
  {
    assert [block][..0] == [];
    assert Printed([]) == [];
  }

  /**
   A section prints its first eight blocks, each with a blank line behind it, and if there are more, a note with the
   number of all the others and the name of the section.
   */
  lemma EightBlocksArePrinted(name: string, blocks: seq<seq<string>>)
    ensures |blocks| <= 8 ==> PrintedSection(name, blocks) == Printed(blocks)
    ensures 8 < |blocks| ==>
              exists digits ::
                && ValueOf(digits) == |blocks| - 8
                && PrintedSection(name, blocks) ==
                   Printed(blocks[..8]) + ["... omitted " + digits + " additional entries from " + name + "\n"]
  {
    if 8 < |blocks| {
      DigitsStandForNumber(|blocks| - 8);
      assert ValueOf(Decimal(|blocks| - 8)) == |blocks| - 8;
    }
  }

  predicate IsLineEnd(c: char) {
    c == '\r' || c == '\n'
  }

  /** Only the line ending is stripped, and all of it. */
  lemma {:induction false} LineEndingIsStripped(line: string)
    ensures var stripped := Stripped(line);
      && stripped <= line
      && (forall k :: |stripped| <= k < |line| ==> IsLineEnd(line[k]))
      && (stripped != "" ==> !IsLineEnd(stripped[|stripped| - 1]))
    decreases |line|
  {
    if line != "" && IsLineEnd(line[|line| - 1]) {
      LineEndingIsStripped(line[..|line| - 1]);
    }
  }

  /** The names of the sections; a header is a name and a colon. Headers and important lines are of high signal. */
  lemma HeadersNameSections(patterns: Patterns, line: string)
    ensures IsHeader(line) <==>
            && SectionName(line) in {
                 "Implementation Diffs", "Mapping Issues", "Reviewed Divergence", "Harness Warnings",
                 "Harness Failures", "Zsh Diagnostic Corpus Drift"
               }
            && Stripped(line) == SectionName(line) + ":"
    ensures ShouldPrintLine(patterns, line) <==> IsHeader(line) || patterns.isImportant(Stripped(line))
  {
    assert "Implementation Diffs" + ":" == "Implementation Diffs:" && "Mapping Issues" + ":" == "Mapping Issues:";
    assert "Reviewed Divergence" + ":" == "Reviewed Divergence:" && "Harness Warnings" + ":" == "Harness Warnings:";
    assert "Harness Failures" + ":" == "Harness Failures:";
    assert "Zsh Diagnostic Corpus Drift" + ":" == "Zsh Diagnostic Corpus Drift:";
    var stripped := Stripped(line);
    if stripped in SECTION_HEADERS {
      HeaderEndsInColon(stripped);
      assert stripped == stripped[..|stripped| - 1] + ":";
    }
  }

  lemma HeaderEndsInColon(header: string)
    requires header in SECTION_HEADERS
    ensures header != "" && header[|header| - 1] == ':'
    ensures header[..|header| - 1] in {
              "Implementation Diffs", "Mapping Issues", "Reviewed Divergence", "Harness Warnings",
              "Harness Failures", "Zsh Diagnostic Corpus Drift"
            }
  {
    assert "Implementation Diffs:"[..20] == "Implementation Diffs" && "Mapping Issues:"[..14] == "Mapping Issues";
    assert "Reviewed Divergence:"[..19] == "Reviewed Divergence" && "Harness Warnings:"[..16] == "Harness Warnings";
    assert "Harness Failures:"[..16] == "Harness Failures";
    assert "Zsh Diagnostic Corpus Drift:"[..27] == "Zsh Diagnostic Corpus Drift";
  }

  // High-signal lines

  /** The lines of high signal, in order. */
  function HighSignals(patterns: Patterns, lines: seq<string>): seq<string> {
    if lines == [] then []
    else (if ShouldPrintLine(patterns, lines[0]) then [lines[0]] else []) + HighSignals(patterns, lines[1..])
  }

  lemma {:induction false} HighSignalsOfBoth(patterns: Patterns, a: seq<string>, b: seq<string>)
    ensures HighSignals(patterns, a + b) == HighSignals(patterns, a) + HighSignals(patterns, b)
  {
    if a == [] {
      assert a + b == b;
    } else {
      assert (a + b)[1..] == a[1..] + b;
      HighSignalsOfBoth(patterns, a[1..], b);
    }
  }

  lemma {:induction false} NoHighSignals(patterns: Patterns, lines: seq<string>)
    requires forall line :: line in lines ==> !ShouldPrintLine(patterns, line)
    ensures HighSignals(patterns, lines) == []
  {
    if lines != [] {
      NoHighSignals(patterns, lines[1..]);
    }
  }

  /** The letters that patterns for important lines start with: no header, name or note starts like them. */
  predicate StartsImportantly(text: string) {
    text != "" && text[0] in {'r', 'l', 'z', 't', 'f', 'e', 'm', 'N'}
  }

  lemma ImportantStart(patterns: Patterns, text: string)
    requires patterns.IsPlausible() && patterns.isImportant(text)
    ensures StartsImportantly(text)
  {
    var start :| start in IMPORTANT_STARTS && start <= text;
    StartsStart(start);
  }

  lemma StartsStart(start: string)
    requires start in IMPORTANT_STARTS
    ensures StartsImportantly(start)
  {
  }

  lemma HeadersStart(header: string)
    requires header in SECTION_HEADERS
    ensures |header| >= 2 && header[0] in {'I', 'M', 'R', 'H', 'Z'}
  {
  }

  lemma {:induction false} StrippedKeepsFirst(line: string)
    requires line != "" && line[0] != '\r' && line[0] != '\n'
    ensures Stripped(line) != "" && Stripped(line)[0] == line[0]
    decreases |line|
  {
    if |line| > 1 {
      StrippedKeepsFirst(line[..|line| - 1]);
    }
  }

  /** Inside a section, a line of high signal always ends it. */
  lemma HighSignalEndsSection(patterns: Patterns, header: string, line: string)
    requires patterns.IsPlausible() && IsHeader(header)
    ensures EndsSection(patterns, SectionName(header), line) <==> ShouldPrintLine(patterns, line)
  {
    HeadersStart(Stripped(header));
    if patterns.isImportant(Stripped(line)) {
      ImportantStart(patterns, Stripped(line));
    }
  }

  lemma NotesAreNotHighSignals(patterns: Patterns, count: nat, name: string)
    requires patterns.IsPlausible()
    ensures !ShouldPrintLine(patterns, OmissionNote(count, name))
    ensures !ShouldPrintLine(patterns, "\n")
  {
    var note := OmissionNote(count, name);
    assert note[0] == '.';
    StrippedKeepsFirst(note);
    if Stripped(note) in SECTION_HEADERS {
      HeadersStart(Stripped(note));
    }
    if patterns.isImportant(Stripped(note)) {
      ImportantStart(patterns, Stripped(note));
    }
    assert "\n"[..0] == "";
    assert Stripped("\n") == "";
    if "" in SECTION_HEADERS {
      HeadersStart("");
    }
    if patterns.isImportant("") {
      ImportantStart(patterns, "");
    }
  }

  lemma {:induction false} BlocksHoldBodyLines(patterns: Patterns, body: seq<string>)
    ensures forall block, line :: block in Blocks(patterns, body) && line in block ==> line in body
    decreases |body|
  {
    if body != [] {
      BlocksHoldBodyLines(patterns, body[..|body| - 1]);
    }
  }

  lemma {:induction false} PrintedLines(blocks: seq<seq<string>>, line: string)
    requires line in Printed(blocks)
    ensures line == "\n" || exists block :: block in blocks && line in block
    decreases |blocks|
  {
    var front := blocks[..|blocks| - 1];
    if line in Printed(front) {
      PrintedLines(front, line);
    }
  }

  lemma SectionsHaveNoHighSignals(patterns: Patterns, name: string, body: seq<string>)
    requires patterns.IsPlausible()
    requires forall line :: line in body ==> !ShouldPrintLine(patterns, line)
    ensures HighSignals(patterns, PrintedSection(name, Blocks(patterns, body))) == []
  {
    hide ShouldPrintLine, OmissionNote, Patterns.IsPlausible;
    var blocks := Blocks(patterns, body);
    var section := PrintedSection(name, blocks);
    BlocksHoldBodyLines(patterns, body);
    forall line | line in section
      ensures !ShouldPrintLine(patterns, line)
    {
      if line in Printed(Shown(blocks)) {
        PrintedLines(Shown(blocks), line);
        NotesAreNotHighSignals(patterns, 0, name);
      } else {
        NotesAreNotHighSignals(patterns, |blocks| - MAX_BLOCKS_PER_SECTION, name);
      }
    }
    NoHighSignals(patterns, section);
  }

  /** Compacting keeps every line of high signal, in order, and adds none. */
  lemma {:induction false} HighSignalsAreKept(patterns: Patterns, lines: seq<string>, i: nat)
    requires patterns.IsPlausible() && i <= |lines|
    ensures HighSignals(patterns, Compacted(patterns, lines, i)) == HighSignals(patterns, lines[i..])
    decreases |lines| - i
  {
    hide ShouldPrintLine, Patterns.IsPlausible, EndsSection, Blocks, PrintedSection, IsHeader, SectionName;
    if i < |lines| {
      if IsHeader(lines[i]) {
        var end := SectionEnd(patterns, SectionName(lines[i]), lines, i + 1);
        HighSignalsAreKept(patterns, lines, end);
        SectionKeepsHighSignals(patterns, lines, i, end, Compacted(patterns, lines, end));
      } else {
        HighSignalsAreKept(patterns, lines, i + 1);
        LineKeepsHighSignals(patterns, lines, i, Compacted(patterns, lines, i + 1));
      }
    }
  }

  lemma LineKeepsHighSignals(patterns: Patterns, lines: seq<string>, i: nat, rest: seq<string>)
    requires i < |lines|
    ensures var kept := if ShouldPrintLine(patterns, lines[i]) then [lines[i]] else [];
      && HighSignals(patterns, kept + rest) == kept + HighSignals(patterns, rest)
      && HighSignals(patterns, lines[i..]) == kept + HighSignals(patterns, lines[i + 1..])
  {
    hide ShouldPrintLine;
    assert lines[i..][1..] == lines[i + 1..];
    if ShouldPrintLine(patterns, lines[i]) {
      assert ([lines[i]] + rest)[1..] == rest;
    } else {
      assert [] + rest == rest;
    }
  }

  lemma SectionKeepsHighSignals(patterns: Patterns, lines: seq<string>, header: nat, end: nat, rest: seq<string>)
    requires patterns.IsPlausible() && header < end <= |lines| && IsHeader(lines[header])
    requires forall k :: header < k < end ==> !EndsSection(patterns, SectionName(lines[header]), lines[k])
    ensures var section := PrintedSection(SectionName(lines[header]), Blocks(patterns, lines[header + 1..end]));
      HighSignals(patterns, [lines[header]] + section + rest) == [lines[header]] + HighSignals(patterns, rest)
    ensures HighSignals(patterns, lines[header..]) == [lines[header]] + HighSignals(patterns, lines[end..])
  {
    hide Patterns.IsPlausible, EndsSection, Blocks, PrintedSection, SectionName, IsHeader, HighSignals;
    var name, body := SectionName(lines[header]), lines[header + 1..end];
    forall line | line in body
      ensures !ShouldPrintLine(patterns, line)
    {
      HighSignalEndsSection(patterns, lines[header], line);
    }
    hide ShouldPrintLine;
    SectionsHaveNoHighSignals(patterns, name, body);
    NoHighSignals(patterns, body);
    HeaderIsHighSignal(patterns, lines[header]);
    HighSignalsOfThree(patterns, [lines[header]], PrintedSection(name, Blocks(patterns, body)), rest);
    HighSignalsOfThree(patterns, [lines[header]], body, lines[end..]);
    assert lines[header..] == [lines[header]] + body + lines[end..];
  }

  lemma HeaderIsHighSignal(patterns: Patterns, header: string)
    requires IsHeader(header)
    ensures HighSignals(patterns, [header]) == [header]
  {
    assert [header][1..] == [];
  }

  lemma HighSignalsOfThree(patterns: Patterns, a: seq<string>, b: seq<string>, c: seq<string>)
    requires HighSignals(patterns, b) == []
    ensures HighSignals(patterns, a + b + c) == HighSignals(patterns, a) + HighSignals(patterns, c)
  {
    HighSignalsOfBoth(patterns, a, b);
    HighSignalsOfBoth(patterns, a + b, c);
  }
}
