/** The `App` component as a state machine: the current document and the
    index of the focused block, and the handlers that replace them.  Each
    document change runs a producer on a Draft, as `produce(state, producer)`
    does, and stores the finished draft as the new document. */
module AppComponent {
  import opened Wrappers
  import opened KeyAllocator
  import opened Document
  import opened Focus
  import opened Codec

  /** The mutable draft a producer works on. */
  class Draft<C> {
    var blocks: map<string, Block<C>>
    var blockOrder: seq<string>

    /** The draft of a document. */
    constructor (s: State<C>)
      ensures Snapshot() == s
    {
      blocks := s.blocks;
      blockOrder := s.blockOrder;
    }

    /** The document the draft holds now. */
    function Snapshot(): State<C>
      reads this
    {
      State(blocks, blockOrder)
    }

    /** The producer of `onCreateNewBlock`. */
    method CreateNewBlock(title: string, createdAt: int, emptyContent: C)
      modifies this
      ensures Snapshot() == Created(old(Snapshot()), title, createdAt, emptyContent)
      ensures WellFormed(old(Snapshot())) ==> WellFormed(Snapshot())
    {
      var key := MakeUniqueKey(title, blockOrder);
      blocks := blocks[key := NewBlock(key, title, createdAt, emptyContent)];
      blockOrder := [key] + blockOrder;
    }

    /** The producer of `onUpdateBlock`. */
    method UpdateBlock(key: string, newContent: Option<C>, newTitle: Option<string>)
      requires (newContent.Some? || newTitle.Some?) ==> key in blocks
      modifies this
      ensures Snapshot() == Updated(old(Snapshot()), key, newContent, newTitle)
      ensures WellFormed(old(Snapshot())) ==> WellFormed(Snapshot())
    {
      if newContent.Some? {
        blocks := blocks[key := blocks[key].(contentState := newContent.value)];
      }
      if newTitle.Some? {
        blocks := blocks[key := blocks[key].(title := newTitle.value)];
      }
    }

    /** The producer of `onDeleteBlock`, with the `indexOf`/`splice` pair as
        written: an absent key makes the splice drop the last key. */
    method DeleteBlock(key: string)
      modifies this
      ensures Snapshot() == Deleted(old(Snapshot()), key)
      ensures WellFormed(old(Snapshot())) && key in old(blocks) ==>
        WellFormed(Snapshot()) && blockOrder == Without(old(blockOrder), key)
    {
      if WellFormed(Snapshot()) && key in blocks {
        DeletePresent(Snapshot(), key);
      }
      blocks := blocks - {key};
      blockOrder := SpliceOne(blockOrder, IndexOf(blockOrder, key));
    }
  }

  class App<C> {
    var state: State<C>
    var focusIdx: int

    /** Start-up: the document decoded from the URL fragment, focus on the
        first block. */
    constructor (hash: string, p: Pipeline<C>)
      ensures state == Deserialize(p, hash) && focusIdx == 0
    {
      state := Deserialize(p, hash);
      focusIdx := 0;
    }

    /** `onUpdateBlock(block, newContentState?, newTitle?)`. */
    method OnUpdateBlock(key: string, newContent: Option<C>, newTitle: Option<string>)
      requires (newContent.Some? || newTitle.Some?) ==> key in state.blocks
      modifies this
      ensures state == Updated(old(state), key, newContent, newTitle)
      ensures WellFormed(old(state)) ==> WellFormed(state)
      ensures focusIdx == old(focusIdx)
    {
      var draft := new Draft(state);
      draft.UpdateBlock(key, newContent, newTitle);
      state := draft.Snapshot();
    }

    /** `onUpdateBlockContent(block, newContentState)`. */
    method OnUpdateBlockContent(key: string, newContent: C)
      requires key in state.blocks
      modifies this
      ensures state == ContentUpdated(old(state), key, newContent)
      ensures focusIdx == old(focusIdx)
    {
      OnUpdateBlock(key, Some(newContent), None);
    }

    /** `onUpdateBlockTitle(block, newTitle)`. */
    method OnUpdateBlockTitle(key: string, newTitle: string)
      requires key in state.blocks
      modifies this
      ensures state == TitleUpdated(old(state), key, newTitle)
      ensures focusIdx == old(focusIdx)
    {
      OnUpdateBlock(key, None, Some(newTitle));
    }

    /** `onCreateNewBlock(title)`: the new block comes first and takes the
        focus. */
    method OnCreateNewBlock(title: string, createdAt: int, emptyContent: C)
      modifies this
      ensures state == Created(old(state), title, createdAt, emptyContent)
      ensures WellFormed(old(state)) ==> WellFormed(state)
      ensures focusIdx == 0
    {
      var draft := new Draft(state);
      draft.CreateNewBlock(title, createdAt, emptyContent);
      state := draft.Snapshot();
      focusIdx := 0;
    }

    /** `onDeleteBlock(block)`. */
    method OnDeleteBlock(key: string)
      modifies this
      ensures state == Deleted(old(state), key)
      ensures WellFormed(old(state)) && key in old(state.blocks) ==> WellFormed(state)
      ensures focusIdx == old(focusIdx)
    {
      var draft := new Draft(state);
      draft.DeleteBlock(key);
      state := draft.Snapshot();
    }

    /** `hasBlock(key)`. */
    function HasBlock(key: string): (r: bool)
      reads this
      ensures r <==> key in state.blockOrder
    {
      Document.HasBlock(state, key)
    }

    /** `checkTodayBlock()`, with the formatted date and the clock passed in. */
    method CheckTodayBlock(today: string, createdAt: int, emptyContent: C)
      modifies this
      ensures state == CheckedToday(old(state), today, createdAt, emptyContent)
      ensures today in state.blockOrder
      ensures old(today in state.blockOrder) ==> state == old(state) && focusIdx == old(focusIdx)
      ensures !old(today in state.blockOrder) ==> focusIdx == 0
    {
      if !HasBlock(today) {
        OnCreateNewBlock(today, createdAt, emptyContent);
      }
    }

    /** `onFocusNext(idx)`. */
    method OnFocusNext(idx: int)
      requires 0 <= idx < |state.blockOrder|
      modifies this
      ensures state == old(state) && focusIdx == FocusNext(idx, |state.blockOrder|)
    {
      focusIdx := JsRemainder(idx + 1, |state.blockOrder|);
    }

    /** `onFocusPrevious(idx)`. */
    method OnFocusPrevious(idx: int)
      requires 0 <= idx < |state.blockOrder|
      modifies this
      ensures state == old(state) && focusIdx == FocusPrevious(idx, |state.blockOrder|)
    {
      focusIdx := JsRemainder(idx - 1 + |state.blockOrder|, |state.blockOrder|);
    }
  }

  /** The interval and the state-change effect both run the day check; once a
      block for the day exists, further runs leave the app as it is. */
  method CheckTodayTwice<C>(app: App<C>, today: string, t1: int, t2: int, e: C)
    modifies app
    ensures app.state == CheckedToday(old(app.state), today, t1, e)
    ensures old(today in app.state.blockOrder) ==> app.focusIdx == old(app.focusIdx)
    ensures !old(today in app.state.blockOrder) ==> app.focusIdx == 0
  {
    app.CheckTodayBlock(today, t1, e);
    ghost var after := app.state;
    ghost var focusAfter := app.focusIdx;
    app.CheckTodayBlock(today, t2, e);
    assert app.state == after && app.focusIdx == focusAfter;
  }
}
