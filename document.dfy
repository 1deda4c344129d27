/** The document of the scratchpad: blocks by key plus their display order, and
    the transitions the editor applies to it (create, update, delete, and the
    check that a block for the current day exists).  Each transition is the
    value `produce(state, producer)` yields; the in-place draft mutations that
    compute them are in module AppComponent. */
module Document {
  import opened Wrappers
  import opened KeyAllocator

  /** One note.  `contentState` is the raw draft-js content, opaque here. */
  datatype Block<C> = Block(key: string, title: string, creator: string, createdAt: int, contentState: C)

  /** The whole persisted document. */
  datatype State<C> = State(blocks: map<string, Block<C>>, blockOrder: seq<string>)

  /** The author of every block `newBlock` makes. */
  const DefaultCreator: string := "me"

  /** `initialState`: no blocks, an empty order, and so the invariant. */
  function InitialState<C>(): (s: State<C>)
    ensures s.blocks == map[] && s.blockOrder == []
    ensures WellFormed(s)
  {
    State(map[], [])
  }

  /** `newBlock(key, title)`; the clock reading and the empty editor content are
      passed in. */
  function NewBlock<C>(key: string, title: string, createdAt: int, emptyContent: C): (b: Block<C>)
    ensures b.key == key && b.title == title
    ensures b.creator == DefaultCreator && b.createdAt == createdAt && b.contentState == emptyContent
  {
    Block(key, title, DefaultCreator, createdAt, emptyContent)
  }

  predicate NoDuplicates(xs: seq<string>)
  {
    forall i, j :: 0 <= i < j < |xs| ==> xs[i] != xs[j]
  }

  /** The document invariant: the order lists every key of `blocks` exactly
      once and nothing else, and every block is stored under its own key. */
  ghost predicate WellFormed<C>(s: State<C>)
  {
    && NoDuplicates(s.blockOrder)
    && (forall k :: k in s.blockOrder <==> k in s.blocks)
    && (forall k :: k in s.blocks ==> s.blocks[k].key == k)
  }

  // ---------------------------------------------------------------------------
  // Array operations of JavaScript the producers use
  // ---------------------------------------------------------------------------

  /** `xs.indexOf(x)`: the first index holding x, or -1. */
  function IndexOf(xs: seq<string>, x: string): (i: int)
    ensures -1 <= i < |xs|
    ensures i == -1 <==> x !in xs
    ensures i >= 0 ==> xs[i] == x && forall k :: 0 <= k < i ==> xs[k] != x
  {
    if xs == [] then -1
    else if xs[0] == x then 0
    else
      var j := IndexOf(xs[1..], x);
      if j < 0 then -1 else j + 1
  }

  /** `xs.splice(start, 1)` on a copy: a negative start counts from the end
      (and is clamped to 0), a start past the end removes nothing. */
  function SpliceOne(xs: seq<string>, start: int): (r: seq<string>)
    ensures 0 <= start < |xs| ==> r == xs[..start] + xs[start + 1..]
    ensures -|xs| <= start < 0 ==> r == xs[..|xs| + start] + xs[|xs| + start + 1..]
    ensures start >= |xs| ==> r == xs
    ensures start < -|xs| && xs != [] ==> r == xs[1..]
    ensures xs == [] ==> r == []
  {
    var actual := if start < 0 then (if |xs| + start < 0 then 0 else |xs| + start)
                  else (if start < |xs| then start else |xs|);
    if actual < |xs| then xs[..actual] + xs[actual + 1..] else xs
  }

  /** The order without any occurrence of `x`: the reference for deletion. */
  function Without(xs: seq<string>, x: string): (r: seq<string>)
    ensures forall y :: y in r <==> y in xs && y != x
  {
    if xs == [] then []
    else if xs[0] == x then Without(xs[1..], x)
    else [xs[0]] + Without(xs[1..], x)
  }

  lemma {:induction false} WithoutAbsent(xs: seq<string>, x: string)
    requires x !in xs
    ensures Without(xs, x) == xs
  {
    if xs != [] {
      WithoutAbsent(xs[1..], x);
    }
  }

  /** Removing the single occurrence of `x` at index i is `Without`. */
  lemma {:induction false} CutIsWithout(xs: seq<string>, x: string, i: nat)
    requires i < |xs| && xs[i] == x && NoDuplicates(xs)
    ensures xs[..i] + xs[i + 1..] == Without(xs, x)
  {
    if i == 0 {
      assert x !in xs[1..];
      WithoutAbsent(xs[1..], x);
    } else {
      CutIsWithout(xs[1..], x, i - 1);
      assert xs[..i] + xs[i + 1..] == [xs[0]] + (xs[1..][..i - 1] + xs[1..][i..]);
    }
  }

  lemma {:induction false} WithoutNoDuplicates(xs: seq<string>, x: string)
    requires NoDuplicates(xs)
    ensures NoDuplicates(Without(xs, x))
  {
    if xs != [] {
      WithoutNoDuplicates(xs[1..], x);
      if xs[0] != x {
        var w := Without(xs[1..], x);
        assert xs[0] !in w by { assert xs[0] !in xs[1..]; }
        assert forall i :: 0 < i < |[xs[0]] + w| ==> ([xs[0]] + w)[i] == w[i - 1];
      }
    }
  }

  /** On a duplicate-free order, splicing out the index of a present key is
      `Without`, and stays duplicate-free. */
  lemma SpliceIndexOf(xs: seq<string>, x: string)
    ensures NoDuplicates(xs) && x in xs ==>
      SpliceOne(xs, IndexOf(xs, x)) == Without(xs, x) && NoDuplicates(Without(xs, x))
  {
    if NoDuplicates(xs) && x in xs {
      CutIsWithout(xs, x, IndexOf(xs, x));
      WithoutNoDuplicates(xs, x);
    }
  }

  // ---------------------------------------------------------------------------
  // Create: `onCreateNewBlock(title)`
  // ---------------------------------------------------------------------------

  /** The document after `onCreateNewBlock(title)`: a key is allocated against
      the current order, the new block is stored under it and the key is put
      in front. */
  function Created<C>(s: State<C>, title: string, createdAt: int, emptyContent: C): (r: State<C>)
    ensures |r.blockOrder| == |s.blockOrder| + 1 && r.blockOrder[1..] == s.blockOrder
    ensures r.blockOrder[0] !in s.blockOrder
    ensures r.blocks.Keys == s.blocks.Keys + {r.blockOrder[0]}
    ensures r.blocks[r.blockOrder[0]] == Block(r.blockOrder[0], title, DefaultCreator, createdAt, emptyContent)
    ensures forall k :: k in s.blocks && k != r.blockOrder[0] ==> r.blocks[k] == s.blocks[k]
    ensures WellFormed(s) ==> WellFormed(r) && |r.blocks| == |s.blocks| + 1
  {
    var key := UniqueKey(title, s.blockOrder);
    var r := State(s.blocks[key := NewBlock(key, title, createdAt, emptyContent)], [key] + s.blockOrder);
    assert r.blockOrder[1..] == s.blockOrder;
    r
  }

  /** The key is the requested title whenever that title is free; otherwise
      it is the first free probe of the title's stem. */
  lemma CreatedKey<C>(s: State<C>, title: string, createdAt: int, emptyContent: C)
    ensures var key := Created(s, title, createdAt, emptyContent).blockOrder[0];
      && (title !in s.blockOrder ==> key == title)
      && (title in s.blockOrder ==>
            exists n: nat :: n >= 1 && key == Probe(Stem(title), n)
              && forall m :: 1 <= m < n ==> Probe(Stem(title), m) in s.blockOrder)
  {
  }

  // ---------------------------------------------------------------------------
  // Update: `onUpdateBlock(block, newContentState?, newTitle?)`
  // ---------------------------------------------------------------------------

  /** The document after `onUpdateBlock`: an argument that is defined replaces
      the field of the block under `key`.  Reading `draft.blocks[key]` of a
      missing key throws, so the key must exist whenever an argument is
      defined. */
  function Updated<C>(s: State<C>, key: string, newContent: Option<C>, newTitle: Option<string>): (r: State<C>)
    requires (newContent.Some? || newTitle.Some?) ==> key in s.blocks
    ensures r.blockOrder == s.blockOrder
    ensures r.blocks.Keys == s.blocks.Keys
    ensures forall k :: k in s.blocks && k != key ==> r.blocks[k] == s.blocks[k]
    ensures key in s.blocks ==>
      var b, b' := s.blocks[key], r.blocks[key];
      && b'.key == b.key && b'.creator == b.creator && b'.createdAt == b.createdAt
      && b'.contentState == newContent.GetOr(b.contentState)
      && b'.title == newTitle.GetOr(b.title)
    ensures newContent.None? && newTitle.None? ==> r == s
    ensures WellFormed(s) ==> WellFormed(r)
  {
    var s1 := if newContent.Some? then
        State(s.blocks[key := s.blocks[key].(contentState := newContent.value)], s.blockOrder)
      else s;
    if newTitle.Some? then
      State(s1.blocks[key := s1.blocks[key].(title := newTitle.value)], s1.blockOrder)
    else s1
  }

  /** `onUpdateBlockContent(block, content)`. */
  function ContentUpdated<C>(s: State<C>, key: string, newContent: C): (r: State<C>)
    requires key in s.blocks
    ensures r.blockOrder == s.blockOrder
    ensures r.blocks == s.blocks[key := s.blocks[key].(contentState := newContent)]
  {
    Updated(s, key, Some(newContent), None)
  }

  /** `onUpdateBlockTitle(block, title)`. */
  function TitleUpdated<C>(s: State<C>, key: string, newTitle: string): (r: State<C>)
    requires key in s.blocks
    ensures r.blockOrder == s.blockOrder
    ensures r.blocks == s.blocks[key := s.blocks[key].(title := newTitle)]
  {
    Updated(s, key, None, Some(newTitle))
  }

  // ---------------------------------------------------------------------------
  // Delete: `onDeleteBlock(block)`
  // ---------------------------------------------------------------------------

  /** The document after `onDeleteBlock`, exactly as the producer computes it:
      `delete blocks[key]` and `blockOrder.splice(blockOrder.indexOf(key), 1)`. */
  function Deleted<C>(s: State<C>, key: string): (r: State<C>)
    ensures r.blocks == s.blocks - {key}
    ensures NoDuplicates(s.blockOrder) && key in s.blockOrder ==> r.blockOrder == Without(s.blockOrder, key)
    ensures key !in s.blockOrder && s.blockOrder != [] ==> r.blockOrder == s.blockOrder[..|s.blockOrder| - 1]
    ensures key !in s.blockOrder && s.blockOrder == [] ==> r.blockOrder == []
  {
    SpliceIndexOf(s.blockOrder, key);
    State(s.blocks - {key}, SpliceOne(s.blockOrder, IndexOf(s.blockOrder, key)))
  }

  /** Deleting a block that is present keeps the invariant, removes exactly
      that key and keeps the other keys in their order. */
  lemma DeletePresent<C>(s: State<C>, key: string)
    requires WellFormed(s) && key in s.blocks
    ensures var r := Deleted(s, key);
      && WellFormed(r)
      && r.blockOrder == Without(s.blockOrder, key)
      && |r.blockOrder| == |s.blockOrder| - 1
      && key !in r.blocks && key !in r.blockOrder
  {
    SpliceIndexOf(s.blockOrder, key);
  }

  /** Deleting a key that is not in a non-empty document drops the LAST key
      from the order but keeps its block: the invariant breaks. */
  lemma DeleteAbsentBreaksInvariant<C>(s: State<C>, key: string)
    requires WellFormed(s) && key !in s.blocks && s.blockOrder != []
    ensures !WellFormed(Deleted(s, key))
    ensures Deleted(s, key).blocks == s.blocks
  {
    var last := s.blockOrder[|s.blockOrder| - 1];
    var r := Deleted(s, key);
    assert last !in r.blockOrder by {
      assert r.blockOrder == s.blockOrder[..|s.blockOrder| - 1];
    }
    assert last in r.blocks;
  }

  /** A concrete document that shows it: deleting "b" from the one-block
      document "a" leaves block "a" stored but unlisted. */
  lemma DeleteAbsentExample<C>(content: C)
    ensures var s := State(map["a" := Block("a", "a", DefaultCreator, 0, content)], ["a"]);
      && WellFormed(s)
      && Deleted(s, "b") == State(s.blocks, [])
  {
    var s := State(map["a" := Block("a", "a", DefaultCreator, 0, content)], ["a"]);
    assert Deleted(s, "b").blocks == s.blocks;
  }

  /** Deletion that leaves the document unchanged for an absent key: only a
      key that is present is spliced out. */
  function DeletedGuarded<C>(s: State<C>, key: string): (r: State<C>)
    ensures WellFormed(s) ==> WellFormed(r) && r.blockOrder == Without(s.blockOrder, key)
                              && r.blocks == s.blocks - {key}
    ensures key !in s.blockOrder ==> r == s
  {
    SpliceIndexOf(s.blockOrder, key);
    if key !in s.blockOrder then WithoutAbsent(s.blockOrder, key); s
    else Deleted(s, key)
  }

  // ---------------------------------------------------------------------------
  // The day check: `hasBlock` and `checkTodayBlock`
  // ---------------------------------------------------------------------------

  /** `hasBlock(key)`: `blockOrder.indexOf(key) >= 0`. */
  function HasBlock<C>(s: State<C>, key: string): (r: bool)
    ensures r <==> key in s.blockOrder
  {
    IndexOf(s.blockOrder, key) >= 0
  }

  /** `checkTodayBlock()` with the formatted date passed in.  Without a block
      for today, the check adds exactly one block, in front, whose key is
      today's string itself; with one, it changes nothing. */
  function CheckedToday<C>(s: State<C>, today: string, createdAt: int, emptyContent: C): (r: State<C>)
    ensures HasBlock(r, today)
    ensures HasBlock(s, today) ==> r == s
    ensures !HasBlock(s, today) ==>
      && r.blockOrder == [today] + s.blockOrder
      && r.blocks == s.blocks[today := Block(today, today, DefaultCreator, createdAt, emptyContent)]
    ensures WellFormed(s) ==> WellFormed(r)
  {
    if !HasBlock(s, today) then
      var r := Created(s, today, createdAt, emptyContent);
      assert r.blockOrder == [r.blockOrder[0]] + r.blockOrder[1..];
      r
    else s
  }

  /** Running the check again on the same day is a no-op, whatever the clock
      reads the second time. */
  lemma CheckTodayIdempotent<C>(s: State<C>, today: string, t1: int, t2: int, e1: C, e2: C)
    ensures var r := CheckedToday(s, today, t1, e1);
      CheckedToday(r, today, t2, e2) == r
  {
  }
}
