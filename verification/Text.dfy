/**
 The string operations the parsers use, over one character per byte: splitting at a character, splitting
 into fields, trimming. White space is the ASCII white space of Go's `strings` and `unicode` packages.
 */
module Text {
  import opened Lists

  predicate IsSpace(c: char) {
    c == ' ' || '\t' <= c <= '\r'
  }

  /** Space, tab, line break, vertical tab, form feed and carriage return. */
  lemma SpacesExactly(c: char)
    ensures IsSpace(c) <==> c in {' ', '\t', '\n', '\U{0B}', '\U{0C}', '\r'}
  {
    var code := c as int;
    assert 9 <= code <= 13 ==> code == 9 || code == 10 || code == 11 || code == 12 || code == 13;
  }

  predicate NoSpace(s: string) {
    forall c <- s :: !IsSpace(c)
  }

  predicate OnlySpace(s: string) {
    forall c <- s :: IsSpace(c)
  }

  // ---------- Split ----------

  /** The first position of `c`, or the length if there is none. */
  function IndexOf(s: string, c: char): (i: nat)
    ensures i <= |s| && (forall j | 0 <= j < i :: s[j] != c) && (i < |s| ==> s[i] == c)
  {
    if s == [] || s[0] == c then 0 else 1 + IndexOf(s[1..], c)
  }

  function Split(s: string, c: char): (pieces: seq<string>)
    ensures pieces != []
  {
    var i := IndexOf(s, c);
    if i == |s| then [s] else [s[..i]] + Split(s[i + 1..], c)
  }

  function Join(pieces: seq<string>, c: char): string
    requires pieces != []
  {
    if |pieces| == 1 then pieces[0] else pieces[0] + [c] + Join(pieces[1..], c)
  }

  lemma {:induction false} JoinOfSplit(s: string, c: char)
    ensures Join(Split(s, c), c) == s
    ensures forall piece <- Split(s, c) :: c !in piece
  {
    var i := IndexOf(s, c);
    if i < |s| {
      JoinOfSplit(s[i + 1..], c);
      assert s == s[..i] + [c] + s[i + 1..];
      assert Split(s, c)[1..] == Split(s[i + 1..], c);
    }
  }

  lemma IndexOfConcat(s: string, c: char, rest: string)
    requires c !in s
    ensures IndexOf(s + [c] + rest, c) == |s|
    ensures (s + [c] + rest)[..|s|] == s && (s + [c] + rest)[|s| + 1..] == rest
  {
    var t := s + [c] + rest;
    assert forall j | 0 <= j < |s| :: t[j] == s[j] != c;
    assert t[|s|] == c;
  }

  /** A piece in front of a separator is split off; together with the next lemma this fixes Split on every text. */
  lemma SplitFirst(piece: string, rest: string, c: char)
    requires c !in piece
    ensures Split(piece + [c] + rest, c) == [piece] + Split(rest, c)
  {
    IndexOfConcat(piece, c, rest);
  }

  lemma {:induction false} EndsOfJoin(pieces: seq<string>, c: char)
    requires pieces != []
    ensures var text, last := Join(pieces, c), pieces[|pieces| - 1];
            && (pieces[0] != [] ==> text != [] && text[0] == pieces[0][0])
            && (last != [] ==> text != [] && text[|text| - 1] == last[|last| - 1])
  {
    if |pieces| > 1 {
      EndsOfJoin(pieces[1..], c);
    }
  }

  lemma SplitWhole(s: string, c: char)
    requires c !in s
    ensures Split(s, c) == [s]
  {
    IndexOfAbsent(s, c);
  }

  lemma {:induction false} SplitOfJoin(pieces: seq<string>, c: char)
    requires pieces != [] && forall piece <- pieces :: c !in piece
    ensures Split(Join(pieces, c), c) == pieces
  {
    assert pieces[0] in pieces;
    if |pieces| > 1 {
      SplitOfJoin(pieces[1..], c);
      SplitFirst(pieces[0], Join(pieces[1..], c), c);
    }
  }

  lemma IndexOfAbsent(s: string, c: char)
    requires c !in s
    ensures IndexOf(s, c) == |s|
  {
  }

  // ---------- Fields ----------

  /** The length of the longest prefix without white space. */
  function TokenLength(s: string): (n: nat)
    ensures n <= |s| && (forall j | 0 <= j < n :: !IsSpace(s[j])) && (n < |s| ==> IsSpace(s[n]))
  {
    if s == [] || IsSpace(s[0]) then 0 else 1 + TokenLength(s[1..])
  }

  function Fields(s: string): seq<string>
    decreases |s|
  {
    if s == [] then []
    else if IsSpace(s[0]) then Fields(s[1..])
    else
      var n := TokenLength(s);
      [s[..n]] + Fields(s[n..])
  }

  /** White space in front is skipped; together with the next lemma this fixes Fields on every text. */
  lemma {:induction false} FieldsSkipSpace(gap: string, s: string)
    requires forall c <- gap :: IsSpace(c)
    ensures Fields(gap + s) == Fields(s)
  {
    if gap == [] {
      assert gap + s == s;
    } else {
      assert (gap + s)[1..] == gap[1..] + s;
      FieldsSkipSpace(gap[1..], s);
    }
  }

  lemma FieldsTakeToken(token: string, s: string)
    requires token != [] && (forall c <- token :: !IsSpace(c)) && (s != [] ==> IsSpace(s[0]))
    ensures Fields(token + s) == [token] + Fields(s)
  {
    var n := TokenLength(token + s);
    assert forall j | 0 <= j < |token| :: (token + s)[j] == token[j] && token[j] in token;
    assert s != [] ==> (token + s)[|token|] == s[0];
    assert (token + s)[..n] == token && (token + s)[n..] == s;
  }

  lemma {:induction false} FieldsDropTail(s: string, tail: string)
    requires OnlySpace(tail)
    ensures Fields(s + tail) == Fields(s)
    decreases |s|
  {
    if s == [] {
      assert s + tail == tail + [];
      FieldsSkipSpace(tail, []);
    } else if IsSpace(s[0]) {
      assert (s + tail)[1..] == s[1..] + tail;
      FieldsDropTail(s[1..], tail);
    } else {
      var n := TokenLength(s);
      assert s + tail == s[..n] + (s[n..] + tail);
      assert forall c <- s[..n] :: !IsSpace(c);
      FieldsTakeToken(s[..n], s[n..] + tail);
      FieldsDropTail(s[n..], tail);
    }
  }

  lemma {:induction false} FieldsAreTokens(s: string)
    ensures forall field <- Fields(s) :: field != [] && NoSpace(field)
    decreases |s|
  {
    if s == [] {
    } else if IsSpace(s[0]) {
      FieldsAreTokens(s[1..]);
    } else {
      FieldsAreTokens(s[TokenLength(s)..]);
    }
  }

  /** A token with the white space in front of it. */
  datatype Cell = Cell(gap: string, token: string)

  /** A printed line: any first gap, at least one space between tokens, no line break. */
  predicate IsLine(cells: seq<Cell>, tail: string) {
    && (forall cell <- cells :: OnlySpace(cell.gap) && '\n' !in cell.gap && cell.token != [] && NoSpace(cell.token))
    && (forall i | 0 < i < |cells| :: cells[i].gap != [])
    && OnlySpace(tail) && '\n' !in tail
  }

  function Print(cells: seq<Cell>, tail: string): string {
    if cells == [] then tail
    else cells[0].gap + (cells[0].token + Print(cells[1..], tail))
  }

  function Tokens(cells: seq<Cell>): seq<string> {
    Map((cell: Cell) => cell.token, cells)
  }

  /** Splitting a printed line into fields gives back its tokens, whatever the spacing. */
  lemma {:induction false} FieldsOfLine(cells: seq<Cell>, tail: string)
    requires IsLine(cells, tail)
    ensures Fields(Print(cells, tail)) == Tokens(cells)
    ensures '\n' !in Print(cells, tail)
  {
    if cells == [] {
      FieldsSkipSpace(tail, []);
      assert tail + [] == tail;
    } else {
      var cell, rest := cells[0], Print(cells[1..], tail);
      assert Tokens(cells) == [cell.token] + Tokens(cells[1..]);
      assert cell in cells;
      FieldsOfLine(cells[1..], tail);
      assert rest != [] ==> IsSpace(rest[0]) by {
        if |cells| > 1 {
          assert cells[1] in cells && cells[1].gap[0] in cells[1].gap;
        }
      }
      assert Fields(cell.gap + (cell.token + rest)) == Fields(cell.token + rest) by {
        FieldsSkipSpace(cell.gap, cell.token + rest);
      }
      assert Fields(cell.token + rest) == [cell.token] + Fields(rest) by { FieldsTakeToken(cell.token, rest); }
    }
  }

  // ---------- Trimming ----------

  function TrimLeft(s: string): string {
    if s != [] && IsSpace(s[0]) then TrimLeft(s[1..]) else s
  }

  function TrimRight(s: string): string {
    if s != [] && IsSpace(s[|s| - 1]) then TrimRight(s[..|s| - 1]) else s
  }

  function TrimSpace(s: string): string {
    TrimRight(TrimLeft(s))
  }

  /** Neither end is white space. */
  predicate Trimmed(s: string) {
    s != [] ==> !IsSpace(s[0]) && !IsSpace(s[|s| - 1])
  }

  lemma {:induction false} TrimLeftDropsGap(gap: string, s: string)
    requires OnlySpace(gap) && (s != [] ==> !IsSpace(s[0]))
    ensures TrimLeft(gap + s) == s
  {
    if gap == [] {
      assert gap + s == s;
    } else {
      assert (gap + s)[1..] == gap[1..] + s;
      TrimLeftDropsGap(gap[1..], s);
    }
  }

  lemma {:induction false} TrimRightDropsTail(s: string, tail: string)
    requires OnlySpace(tail) && (s != [] ==> !IsSpace(s[|s| - 1]))
    ensures TrimRight(s + tail) == s
  {
    if tail == [] {
      assert s + tail == s;
    } else {
      assert (s + tail)[..|s + tail| - 1] == s + tail[..|tail| - 1];
      TrimRightDropsTail(s, tail[..|tail| - 1]);
    }
  }

  /** Trimming a padded text gives back the text. */
  lemma TrimOfPadded(gap: string, s: string, tail: string)
    requires (forall c <- gap :: IsSpace(c)) && (forall c <- tail :: IsSpace(c))
    requires s != [] ==> !IsSpace(s[0]) && !IsSpace(s[|s| - 1])
    ensures TrimSpace(gap + s + tail) == s
  {
    if s == [] {
      assert gap + s + tail == (gap + tail) + [];
      TrimLeftDropsGap(gap + tail, []);
    } else {
      assert gap + s + tail == gap + (s + tail);
      TrimLeftDropsGap(gap, s + tail);
      TrimRightDropsTail(s, tail);
    }
  }

  lemma {:induction false} TrimLeftSplits(s: string) returns (gap: string)
    ensures OnlySpace(gap) && s == gap + TrimLeft(s)
  {
    gap := [];
    if s != [] && IsSpace(s[0]) {
      gap := TrimLeftSplits(s[1..]);
      gap := [s[0]] + gap;
    }
  }

  lemma {:induction false} TrimRightSplits(s: string) returns (tail: string)
    ensures OnlySpace(tail) && s == TrimRight(s) + tail
  {
    tail := [];
    if s != [] && IsSpace(s[|s| - 1]) {
      tail := TrimRightSplits(s[..|s| - 1]);
      tail := tail + [s[|s| - 1]];
    }
  }

  function TrimSuffix(s: string, suffix: string): string {
    if |suffix| <= |s| && s[|s| - |suffix|..] == suffix then s[..|s| - |suffix|] else s
  }

  /** Exactly one trailing occurrence is taken off, if there is one. */
  lemma TrimSuffixExactly(s: string, c: char)
    ensures TrimSuffix(s + [c], [c]) == s
    ensures s == [] || s[|s| - 1] != c ==> TrimSuffix(s, [c]) == s
  {
  }
}
