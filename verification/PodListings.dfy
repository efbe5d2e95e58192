/** What the benchmark reads from the pod listings of `oc get pods`. */
module PodListings {
  import opened Lists
  import opened Outcomes
  import opened Text

  predicate LineDone(line: string) {
    var fields := Fields(line);
    |fields| > 2 ==> fields[2] == "Completed" || fields[2] == "Succeeded"
  }

  function Lines(output: string): seq<string> {
    Split(TrimSpace(output), '\n')
  }

  /** Every line of more than two fields shows a finished pod. */
  predicate Complete(listing: string) {
    forall line <- Lines(listing) :: LineDone(line)
  }

  method AllPodsDone(output: string) returns (complete: bool)
    ensures complete <==> Complete(output)
  {
    var lines := Lines(output);
    complete := true;
    for i := 0 to |lines|
      invariant complete && forall line <- lines[..i] :: LineDone(line)
    {
      var fields := Fields(lines[i]);
      if |fields| > 2 && fields[2] != "Completed" && fields[2] != "Succeeded" {
        assert lines[i] in lines;
        complete := false;
        break;
      }
    }
    assert complete ==> lines[..|lines|] == lines;
  }

  lemma SplitHasMore(s: string, c: char)
    ensures |Split(s, c)| > 1 <==> c in s
  {
    var i := IndexOf(s, c);
    if i < |s| {
      assert s[i] in s;
    }
  }

  /** A pod is listed as `pod/name`. */
  predicate HasName(pod: string) {
    '/' in pod
  }

  predicate AllNamed(pods: seq<string>) {
    forall pod <- pods :: HasName(pod)
  }

  function PodName(pod: string): string
    requires HasName(pod)
  {
    SplitHasMore(pod, '/');
    Split(pod, '/')[1]
  }

  // ---------- Printed listings ----------

  /** The name is what follows the first slash, up to the next one if there is another. */
  lemma PodNameOfListed(kind: string, name: string, rest: string)
    requires '/' !in kind && '/' !in name
    ensures PodName(kind + "/" + name) == name
    ensures PodName(kind + "/" + name + "/" + rest) == name
  {
    SplitFirst(kind, name, '/');
    SplitWhole(name, '/');
    assert kind + "/" + name + "/" + rest == kind + "/" + (name + "/" + rest);
    SplitFirst(kind, name + "/" + rest, '/');
    SplitFirst(name, rest, '/');
  }

  /** The lines of a text are its lines between the first and the last character that are not white space. */
  lemma LinesOfListing(gap: string, lines: seq<string>, tail: string)
    requires (forall c <- gap :: IsSpace(c)) && (forall c <- tail :: IsSpace(c))
    requires lines != [] && forall line <- lines :: '\n' !in line
    requires var first, last := lines[0], lines[|lines| - 1];
             first != "" && !IsSpace(first[0]) && last != "" && !IsSpace(last[|last| - 1])
    ensures Lines(gap + Join(lines, '\n') + tail) == lines
  {
    EndsOfJoin(lines, '\n');
    TrimOfPadded(gap, Join(lines, '\n'), tail);
    SplitOfJoin(lines, '\n');
  }

  /** A printed name listing, with or without a final line break: its lines in order, each with its name. */
  lemma PodsOfListing(gap: string, kinds: seq<string>, names: seq<string>, lines: seq<string>, tail: string)
    requires (forall c <- gap :: IsSpace(c)) && (forall c <- tail :: IsSpace(c))
    requires lines != [] && |kinds| == |names| == |lines|
    requires forall i | 0 <= i < |lines| :: lines[i] == kinds[i] + "/" + names[i]
    requires forall i | 0 <= i < |lines| :: forall c <- kinds[i] + names[i] :: !IsSpace(c) && c != '/'
    ensures Lines(gap + Join(lines, '\n') + tail) == lines
    ensures forall i | 0 <= i < |lines| :: '/' in lines[i] && PodName(lines[i]) == names[i]
  {
    forall i | 0 <= i < |lines|
      ensures '/' in lines[i] && PodName(lines[i]) == names[i]
      ensures '\n' !in lines[i] && !IsSpace(lines[i][0]) && !IsSpace(lines[i][|lines[i]| - 1])
    {
      var kind, name := kinds[i], names[i];
      assert forall c <- kind :: c in kind + name;
      assert forall c <- name :: c in kind + name;
      assert lines[i][|kind|] == '/';
      PodNameOfListed(kind, name, "");
    }
    LinesOfListing(gap, lines, tail);
  }

  /** Every line of the text is done, read from the front. */
  predicate AllDone(text: string)
    decreases |text|
  {
    var i := IndexOf(text, '\n');
    LineDone(text[..i]) && (i < |text| ==> AllDone(text[i + 1..]))
  }

  lemma {:induction false} AllDoneIsByLine(text: string)
    ensures AllDone(text) <==> forall line <- Split(text, '\n') :: LineDone(line)
    decreases |text|
  {
    var i := IndexOf(text, '\n');
    if i < |text| {
      AllDoneIsByLine(text[i + 1..]);
      assert Split(text, '\n')[1..] == Split(text[i + 1..], '\n');
    } else {
      assert text[..i] == text;
    }
  }

  lemma LastLine(line: string)
    requires '\n' !in line
    ensures AllDone(line) <==> LineDone(line)
  {
    IndexOfAbsent(line, '\n');
    assert line[..|line|] == line;
  }

  lemma FirstLine(line: string, rest: string)
    requires '\n' !in line
    ensures AllDone(line + "\n" + rest) <==> LineDone(line) && AllDone(rest)
  {
    IndexOfConcat(line, '\n', rest);
  }

  /** White space around a line does not matter. */
  lemma PaddedLine(gap: string, line: string, tail: string)
    requires OnlySpace(gap) && OnlySpace(tail)
    ensures LineDone(gap + (line + tail)) <==> LineDone(line)
  {
    FieldsSkipSpace(gap, line + tail);
    FieldsDropTail(line, tail);
  }

  /** A text is its last line, or its first line, a line break and the rest. */
  lemma Lead(text: string) returns (first: string, rest: Option<string>)
    ensures '\n' !in first
    ensures rest.None? ==> text == first
    ensures rest.Some? ==> text == first + "\n" + rest.value
    ensures OnlySpace(text) ==> OnlySpace(first) && (rest.Some? ==> OnlySpace(rest.value))
  {
    var i := IndexOf(text, '\n');
    first := text[..i];
    rest := if i < |text| then Some(text[i + 1..]) else None;
  }

  lemma {:induction false} BlankIsDone(text: string)
    requires OnlySpace(text)
    ensures AllDone(text)
    decreases |text|
  {
    var first, rest := Lead(text);
    assert first + ([] + []) == first;
    PaddedLine(first, [], []);
    match rest
    case None => LastLine(first);
    case Some(more) =>
      FirstLine(first, more);
      BlankIsDone(more);
  }

  lemma SpaceIsIgnored(c: char, text: string)
    requires IsSpace(c)
    ensures AllDone([c] + text) <==> AllDone(text)
  {
    if c == '\n' {
      assert [c] + text == [] + "\n" + text;
      FirstLine([], text);
    } else {
      var first, rest := Lead(text);
      assert [c] + (first + []) == [c] + first;
      PaddedLine([c], first, []);
      match rest
      case None =>
        LastLine(first);
        LastLine([c] + first);
      case Some(more) =>
        assert [c] + text == ([c] + first) + "\n" + more;
        FirstLine(first, more);
        FirstLine([c] + first, more);
    }
  }

  lemma {:induction false} GapIsIgnored(gap: string, text: string)
    requires OnlySpace(gap)
    ensures AllDone(gap + text) <==> AllDone(text)
  {
    if gap == [] {
      assert gap + text == text;
    } else {
      assert gap + text == [gap[0]] + (gap[1..] + text);
      SpaceIsIgnored(gap[0], gap[1..] + text);
      GapIsIgnored(gap[1..], text);
    }
  }

  lemma LineTailIsIgnored(line: string, tail: string)
    requires OnlySpace(tail)
    ensures LineDone(line + tail) <==> LineDone(line)
  {
    assert [] + (line + tail) == line + tail;
    PaddedLine([], line, tail);
  }

  lemma OnlyFirstLineMatters(text: string, first: string, more: string)
    requires text == first + "\n" + more && '\n' !in first && OnlySpace(more)
    ensures AllDone(text) <==> LineDone(first)
  {
    BlankIsDone(more);
    FirstLine(first, more);
  }

  lemma BreakMoves(line: string, tail: string, start: string, more: string)
    requires tail == start + "\n" + more
    ensures line + tail == (line + start) + "\n" + more
  {
  }

  lemma LastTailIsIgnored(line: string, tail: string)
    requires '\n' !in line && OnlySpace(tail)
    ensures AllDone(line + tail) <==> AllDone(line)
  {
    var start, end := Lead(tail);
    LastLine(line);
    LineTailIsIgnored(line, start);
    match end
    case None => LastLine(line + tail);
    case Some(more) =>
      BreakMoves(line, tail, start, more);
      OnlyFirstLineMatters(line + tail, line + start, more);
  }

  lemma {:induction false} TailIsIgnored(text: string, tail: string)
    requires OnlySpace(tail)
    ensures AllDone(text + tail) <==> AllDone(text)
    decreases |text|
  {
    var first, rest := Lead(text);
    match rest
    case None => LastTailIsIgnored(text, tail);
    case Some(more) =>
      assert text + tail == first + "\n" + (more + tail);
      FirstLine(first, more);
      FirstLine(first, more + tail);
      TailIsIgnored(more, tail);
  }

  lemma CompleteIsAllDone(text: string)
    ensures Complete(text) <==> AllDone(text)
  {
    var gap := TrimLeftSplits(text);
    var tail := TrimRightSplits(TrimLeft(text));
    TailIsIgnored(TrimSpace(text), tail);
    GapIsIgnored(gap, TrimLeft(text));
    AllDoneIsByLine(TrimSpace(text));
  }

  /** Complete, for any text: every line of at least three fields has one of the two states in the third. */
  lemma CompleteExactly(text: string)
    ensures Complete(text) <==>
              forall line <- Split(text, '\n') :: var fields := Fields(line);
                |fields| >= 3 ==> fields[2] == "Completed" || fields[2] == "Succeeded"
  {
    CompleteIsAllDone(text);
    AllDoneIsByLine(text);
    assert forall line <- Split(text, '\n') :: LineDone(line) <==>
      var fields := Fields(line); |fields| >= 3 ==> fields[2] == "Completed" || fields[2] == "Succeeded";
  }

  /** A row of a printed status listing, with the status in its third cell. */
  datatype StatusLine = StatusLine(cells: seq<Cell>, tail: string)

  function PrintStatus(line: StatusLine): string {
    Print(line.cells, line.tail)
  }

  /** A printed listing is complete exactly when every row with a status shows a finished pod. */
  lemma CompleteOfPrinted(listing: seq<StatusLine>)
    requires listing != [] && forall line <- listing :: IsLine(line.cells, line.tail)
    ensures Complete(Join(Map(PrintStatus, listing), '\n')) <==>
              forall line <- listing :: |line.cells| > 2 ==> line.cells[2].token in {"Completed", "Succeeded"}
  {
    var printed := Map(PrintStatus, listing);
    var text := Join(printed, '\n');
    forall i | 0 <= i < |listing|
      ensures '\n' !in printed[i]
      ensures LineDone(printed[i]) <==>
                (|listing[i].cells| > 2 ==> listing[i].cells[2].token in {"Completed", "Succeeded"})
    {
      assert listing[i] in listing;
      FieldsOfLine(listing[i].cells, listing[i].tail);
    }
    SplitOfJoin(printed, '\n');
    CompleteIsAllDone(text);
    AllDoneIsByLine(text);
    assert AllDone(text) <==> forall i | 0 <= i < |printed| :: LineDone(printed[i]);
  }

  /** No pods at all: a blank status listing counts as complete, and a blank name listing has a line without slash. */
  lemma BlankListings(output: string)
    requires OnlySpace(output)
    ensures Complete(output) && Lines(output) == [""]
  {
    assert output == [] + output;
    TrimOfPadded([], [], output);
    assert Lines(output) == [""];
  }
}
