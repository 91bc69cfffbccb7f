/**
 * The rename editor of one column header of the full table
 * (`SortableHeader`; the compact widget shows plain labels). The title
 * draft starts as the header text; clicking the title opens an input,
 * keystrokes change only the draft, and losing focus or pressing Enter
 * closes the input and reports the draft to the host. There is no cancel
 * key: every close reports, whether or not the draft differs.
 */
module HeaderEdit {

  import opened Wrappers
  import opened TableModel

  /** Whether the input is shown, and the draft title. */
  datatype Editor = Editor(editing: bool, title: string)

  /**
   * What reaches the header: a click on the title text, an input change
   * carrying the input's whole value, focus loss, or a key press.
   */
  datatype Event = ClickTitle | Change(text: string) | Blur | KeyDown(key: string)

  /** A call `onRenameColumn(columnId, index, title)`. */
  datatype Rename = Rename(columnId: Id, index: nat, title: string)

  const EnterKey := "Enter"

  /** On mount the input is closed and the draft is the header text. */
  function Mount(headerText: string): (e: Editor)
    ensures !e.editing && e.title == headerText
  {
    Editor(false, headerText)
  }

  /** The event closes the input and reports the draft. */
  predicate Commits(e: Editor, ev: Event)
  {
    e.editing && (ev.Blur? || ev == KeyDown(EnterKey))
  }

  /**
   * One event. The title text is only clickable while the input is closed,
   * and the input only receives changes, focus loss and keys while open;
   * an event that reaches no rendered element changes nothing.
   */
  function Step(columnId: Id, index: nat, e: Editor, ev: Event): (r: (Editor, Option<Rename>))
    ensures r.1.Some? <==> Commits(e, ev)
    ensures Commits(e, ev) ==> r == (Editor(false, e.title), Some(Rename(columnId, index, e.title)))
    ensures ev.Change? ==> r.1 == None && r.0.editing == e.editing && (e.editing ==> r.0.title == ev.text)
    ensures ev.ClickTitle? ==> r == (Editor(true, e.title), None)
    ensures ev.KeyDown? && ev.key != EnterKey ==> r == (e, None)
    ensures !e.editing && !ev.ClickTitle? ==> r == (e, None)
  {
    match ev
    case ClickTitle => (Editor(true, e.title), None)
    case Change(text) => if e.editing then (Editor(true, text), None) else (e, None)
    case Blur => if e.editing then HandleBlur(columnId, index, e) else (e, None)
    case KeyDown(key) => if e.editing && key == EnterKey then HandleBlur(columnId, index, e) else (e, None)
  }

  /** `handleBlur`: close the input and report the draft as it stands. */
  function HandleBlur(columnId: Id, index: nat, e: Editor): (r: (Editor, Option<Rename>))
    ensures !r.0.editing && r.0.title == e.title
    ensures r.1.Some? && r.1.value.columnId == columnId && r.1.value.index == index
    ensures r.1.value.title == e.title
  {
    (Editor(false, e.title), Some(Rename(columnId, index, e.title)))
  }

  /** A sequence of events, collecting the rename calls in order. */
  function Run(columnId: Id, index: nat, e: Editor, evs: seq<Event>): (r: (Editor, seq<Rename>))
    ensures forall k :: 0 <= k < |r.1| ==> r.1[k].columnId == columnId && r.1[k].index == index
    ensures |r.1| <= |evs|
    decreases |evs|
  {
    if |evs| == 0 then (e, [])
    else
      var step := Step(columnId, index, e, evs[0]);
      var rest := Run(columnId, index, step.0, evs[1..]);
      (rest.0, Emitted(step.1) + rest.1)
  }

  /** The calls an optional call contributes. */
  function Emitted(call: Option<Rename>): seq<Rename>
  {
    if call.Some? then [call.value] else []
  }

  /** A sequence of input changes. */
  predicate AllChanges(evs: seq<Event>)
  {
    forall k :: 0 <= k < |evs| ==> evs[k].Change?
  }

  /** The draft after a sequence of changes: the last text, or the old draft. */
  function LastText(title: string, evs: seq<Event>): string
    requires AllChanges(evs)
  {
    if |evs| == 0 then title else evs[|evs| - 1].text
  }

  /** While the input is open, typing reports nothing and leaves the last text as the draft. */
  lemma {:induction false} TypingOnlyChangesDraft(columnId: Id, index: nat, e: Editor, evs: seq<Event>)
    requires e.editing && AllChanges(evs)
    ensures Run(columnId, index, e, evs) == (Editor(true, LastText(e.title, evs)), [])
    decreases |evs|
  {
    if |evs| > 0 {
      var e1 := Editor(true, evs[0].text);
      assert Step(columnId, index, e, evs[0]) == (e1, None);
      TypingOnlyChangesDraft(columnId, index, e1, evs[1..]);
      assert |evs[1..]| == 0 ==> LastText(e1.title, evs[1..]) == evs[0].text;
      assert |evs[1..]| > 0 ==> evs[1..][|evs[1..]| - 1] == evs[|evs| - 1];
    }
  }

  /**
   * A whole edit session: open the input, type, then close it by blur or by
   * Enter. Exactly one rename is reported, carrying the last text typed, or
   * the unchanged header text when nothing was typed.
   */
  lemma EditSession(columnId: Id, index: nat, headerText: string, typed: seq<Event>, close: Event)
    requires AllChanges(typed)
    requires close == Blur || close == KeyDown(EnterKey)
    ensures var text := LastText(headerText, typed);
            Run(columnId, index, Mount(headerText), [ClickTitle] + typed + [close]) ==
              (Editor(false, text), [Rename(columnId, index, text)])
  {
    var evs := [ClickTitle] + typed + [close];
    var open := Editor(true, headerText);
    assert evs[1..] == typed + [close];
    var text := LastText(headerText, typed);
    assert evs[0] == ClickTitle;
    assert Step(columnId, index, Mount(headerText), ClickTitle) == (open, None);
    var tail := Run(columnId, index, open, typed + [close]);
    assert Run(columnId, index, Mount(headerText), evs) == (tail.0, Emitted(None) + tail.1);
    assert Emitted(None) + tail.1 == tail.1;
    RunAppend(columnId, index, open, typed, [close]);
    TypingOnlyChangesDraft(columnId, index, open, typed);
    var closing := Editor(true, text);
    assert Step(columnId, index, closing, close) == (Editor(false, text), Some(Rename(columnId, index, text)));
    assert [close][1..] == [];
    var call := Rename(columnId, index, text);
    assert Run(columnId, index, closing, [close]) == (Editor(false, text), Emitted(Some(call)) + []);
    assert Emitted(Some(call)) + [] == [call];
    assert Run(columnId, index, open, typed) == (closing, []);
    assert tail == (Editor(false, text), [] + [call]);
    assert [] + [call] == [call];
  }

  /** Running two event sequences one after the other. */
  lemma {:induction false} RunAppend(columnId: Id, index: nat, e: Editor, xs: seq<Event>, ys: seq<Event>)
    ensures var (e1, c1) := Run(columnId, index, e, xs);
            var (e2, c2) := Run(columnId, index, e1, ys);
            Run(columnId, index, e, xs + ys) == (e2, c1 + c2)
    decreases |xs|
  {
    if |xs| == 0 {
      assert xs + ys == ys;
      var (e2, c2) := Run(columnId, index, e, ys);
      assert [] + c2 == c2;
    } else {
      assert (xs + ys)[0] == xs[0];
      assert (xs + ys)[1..] == xs[1..] + ys;
      var step := Step(columnId, index, e, xs[0]);
      var e1, head := step.0, Emitted(step.1);
      RunAppend(columnId, index, e1, xs[1..], ys);
      var (ex, cx) := Run(columnId, index, e1, xs[1..]);
      var (ey, cy) := Run(columnId, index, ex, ys);
      assert Run(columnId, index, e, xs) == (ex, head + cx);
      assert Run(columnId, index, e, xs + ys) == (ey, head + (cx + cy));
      assert head + (cx + cy) == (head + cx) + cy;
    }
  }
}
