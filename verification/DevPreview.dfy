/** Marking a tree of commands as developer preview, in place. */
module DevPreview {
  const SUFFIX := " (developer preview)"

  const NOTE := "\n"
    + "+------------------------------------------------------------------------------+\n"
    + "|                                                                              |\n"
    + "|    This command is a developer preview, unsupported and not fully tested.    |\n"
    + "|    Please see the following document for more info on developer preview:     |\n"
    + "|    https://access.redhat.com/support/offerings/devpreview                    |\n"
    + "|                                                                              |\n"
    + "+------------------------------------------------------------------------------+\n"

  /** What is added to descriptions. The package adds one notice; nothing below depends on its wording. */
  datatype Notice = Notice(suffix: string, note: string)

  const DEVELOPER_PREVIEW := Notice(SUFFIX, NOTE)

  /** `s` without the line breaks at its end. */
  function TrimBreaks(s: string): string {
    if s != [] && s[|s| - 1] == '\n' then TrimBreaks(s[..|s| - 1]) else s
  }

  /** `kept` is `s` up to the line breaks at its end. */
  predicate WithoutBreaks(s: string, kept: string) {
    && kept <= s && (forall i | |kept| <= i < |s| :: s[i] == '\n')
    && (kept != "" ==> kept[|kept| - 1] != '\n')
  }

  lemma {:induction false} TrimBreaksKeepsRest(s: string)
    ensures WithoutBreaks(s, TrimBreaks(s))
  {
    if s != [] && s[|s| - 1] == '\n' {
      TrimBreaksKeepsRest(s[..|s| - 1]);
    }
  }

  /** The long description of a command with these descriptions, once amended. */
  function Amended(notice: Notice, short: string, long: string): string {
    TrimBreaks(if long != "" then long else short + notice.suffix) + "\n" + notice.note
  }

  /**
   The amended text is the old one, or the amended short text if there was none, with the line breaks at its
   end replaced by one line break and the note; and what is kept of the old text is determined by that.
   */
  lemma AmendedKeepsText(notice: Notice, short: string, long: string) returns (kept: string)
    ensures var text := if long != "" then long else short + notice.suffix;
            && kept <= text && (forall i | |kept| <= i < |text| :: text[i] == '\n')
            && (kept != "" ==> kept[|kept| - 1] != '\n')
            && Amended(notice, short, long) == kept + "\n" + notice.note
            && (forall other | WithoutBreaks(text, other) :: other == kept)
  {
    var text := if long != "" then long else short + notice.suffix;
    kept := TrimBreaks(text);
    TrimBreaksKeepsRest(text);
    forall other | WithoutBreaks(text, other)
      ensures other == kept
    {
      assert kept != "" ==> text[|kept| - 1] == kept[|kept| - 1];
      assert other != "" ==> text[|other| - 1] == other[|other| - 1];
    }
  }

  /** The notice of the package. */
  lemma NoticeOfPackage()
    ensures DEVELOPER_PREVIEW.suffix == " (developer preview)"
    ensures DEVELOPER_PREVIEW.note == "\n"
      + "+------------------------------------------------------------------------------+\n"
      + "|                                                                              |\n"
      + "|    This command is a developer preview, unsupported and not fully tested.    |\n"
      + "|    Please see the following document for more info on developer preview:     |\n"
      + "|    https://access.redhat.com/support/offerings/devpreview                    |\n"
      + "|                                                                              |\n"
      + "+------------------------------------------------------------------------------+\n"
  {
  }

  class Command {
    var hidden: bool
    var short: string
    var long: string
    var children: seq<Command>
    ghost var tree: set<Command>
    ghost var height: nat

    /** The command is the root of a finite tree of distinct commands, `tree` being all of them. */
    ghost predicate Valid()
      reads this`children, this`tree, this`height, tree`children, tree`tree, tree`height
      decreases height
    {
      && this in tree
      && (forall child <- children ::
            child in tree && child.height < height && this !in child.tree && child.tree <= tree && child.Valid())
      && (forall i, j | 0 <= i < j < |children| :: children[i].tree !! children[j].tree)
      && (forall c <- tree - {this} :: Under(c))
    }

    constructor (short: string, long: string, children: seq<Command>, ghost height: nat)
      requires forall child <- children :: child.Valid() && child.height < height
      requires forall i, j | 0 <= i < j < |children| :: children[i].tree !! children[j].tree
      ensures Valid() && this.short == short && this.long == long && this.children == children && !hidden
    {
      this.hidden, this.short, this.long, this.children := false, short, long, children;
      this.tree := {this} + Below(children);
      this.height := height;
      new;
      assert forall c <- tree - {this} :: Under(c);
    }

    /** The commands of the trees under `children`. */
    static ghost function Below(children: seq<Command>): set<Command>
      reads children`tree
    {
      set i, c | 0 <= i < |children| && c in children[i].tree :: c
    }

    ghost predicate Under(c: Command)
      reads this`children, children`tree
    {
      exists i | 0 <= i < |children| :: c in children[i].tree
    }

    /** Both descriptions are the amended old ones. */
    twostate predicate Marked(notice: Notice)
      reads this`short, this`long
    {
      short == old(short) + notice.suffix && long == Amended(notice, old(short), old(long))
    }

    twostate predicate Unmarked()
      reads this`short, this`long
    {
      short == old(short) && long == old(long)
    }
  }

  /** The tree is the command and everything below it, and nothing else: children of members are members. */
  lemma {:induction false} TreeIsEverythingBelow(cmd: Command, c: Command)
    requires cmd.Valid() && c in cmd.tree
    ensures cmd in cmd.tree && forall child <- c.children :: child in cmd.tree
    ensures c == cmd || exists parent <- cmd.tree :: c in parent.children
    decreases cmd.height
  {
    if c != cmd {
      assert cmd.Under(c);
      var i :| 0 <= i < |cmd.children| && c in cmd.children[i].tree;
      var child := cmd.children[i];
      assert child in cmd.children;
      TreeIsEverythingBelow(child, c);
      if c != child {
        var parent :| parent in child.tree && c in parent.children;
        assert parent in cmd.tree;
      }
    }
  }

  method AmendOne(notice: Notice, cmd: Command)
    modifies cmd`short, cmd`long
    ensures cmd.Marked(notice)
  {
    cmd.short := cmd.short + notice.suffix;
    if cmd.long != "" {
      cmd.long := TrimBreaks(cmd.long) + "\n" + notice.note;
    } else {
      cmd.long := TrimBreaks(cmd.short) + "\n" + notice.note;
    }
  }

  /** Of the commands below, exactly those under the first `i` children are done. */
  ghost predicate Visited(cmd: Command, i: nat, done: set<Command>)
    reads cmd`children, cmd.children`tree
  {
    forall j, c | 0 <= j < |cmd.children| && c in cmd.children[j].tree :: c in done <==> j < i
  }

  lemma VisitNext(cmd: Command, i: nat, done: set<Command>)
    requires cmd.Valid() && i < |cmd.children| && Visited(cmd, i, done)
    ensures var child := cmd.children[i];
            && child.Valid() && child.height < cmd.height && child.tree <= cmd.tree && child.tree !! done
            && Visited(cmd, i + 1, done + child.tree)
  {
    assert cmd.children[i] in cmd.children;
  }

  lemma AllVisited(cmd: Command, done: set<Command>)
    requires cmd.Valid() && cmd in done && Visited(cmd, |cmd.children|, done)
    ensures cmd.tree <= done
  {
    forall c <- cmd.tree - {cmd}
      ensures c in done
    {
      assert cmd.Under(c);
    }
  }

  /** Amend the command and everything below it, each exactly once. Only descriptions change. */
  method AmendDescriptions(notice: Notice, cmd: Command)
    requires cmd.Valid()
    modifies cmd.tree`short, cmd.tree`long
    ensures forall c <- cmd.tree ::
              c.short == old(c.short) + notice.suffix && c.long == Amended(notice, old(c.short), old(c.long))
    decreases cmd.height
  {
    AmendOne(notice, cmd);
    ghost var done: set<Command> := {cmd};
    for i := 0 to |cmd.children|
      invariant cmd in done && done <= cmd.tree && Visited(cmd, i, done)
      invariant forall c <- cmd.tree :: if c in done then c.Marked(notice) else c.Unmarked()
    {
      var child := cmd.children[i];
      VisitNext(cmd, i, done);
      assert forall c <- child.tree :: c.Unmarked();
      label Before:
      AmendDescriptions(notice, child);
      assert forall c <- child.tree :: c.Marked@Before(notice) && c.Marked(notice);
      done := done + child.tree;
    }
    AllVisited(cmd, done);
  }

  /** What `Configure` does, for any notice. */
  method HideAndAmend(notice: Notice, cmd: Command)
    requires cmd.Valid()
    modifies cmd`hidden, cmd.tree`short, cmd.tree`long
    ensures cmd.hidden && cmd.Valid()
    ensures cmd.tree == old(cmd.tree) && forall c <- cmd.tree :: c.children == old(c.children)
    ensures forall c <- cmd.tree ::
              c.short == old(c.short) + notice.suffix && c.long == Amended(notice, old(c.short), old(c.long))
  {
    cmd.hidden := true;
    AmendDescriptions(notice, cmd);
  }

  /** Hide the command and amend the whole tree; the others stay as visible as they were, and no command moves. */
  method Configure(cmd: Command)
    requires cmd.Valid()
    modifies cmd`hidden, cmd.tree`short, cmd.tree`long
    ensures cmd.hidden && cmd.Valid()
    ensures cmd.tree == old(cmd.tree) && forall c <- cmd.tree :: c.children == old(c.children)
    ensures forall c <- cmd.tree ::
              && c.short == old(c.short) + DEVELOPER_PREVIEW.suffix
              && c.long == Amended(DEVELOPER_PREVIEW, old(c.short), old(c.long))
  {
    HideAndAmend(DEVELOPER_PREVIEW, cmd);
  }
}
