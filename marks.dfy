/**
 * The marks the parser puts on statements to find basic-block boundaries:
 * a statement that begins a block is an entry, one that ends a block is an
 * exit, and one that does both bounces. Marking only ever adds: an entry
 * mark survives an exit mark and the other way round.
 */
module Marks {
  import opened Wrappers
  import opened LinkedMaps

  /** `JumpType`; `NoJump` is the source's `None`, renamed so as not to clash with `Option.None`. */
  datatype JumpType = Entry | Exit | Bounce | NoJump

  /** The mark of each statement, by statement number, in the order the keys were first marked. */
  type Mapping = LinkedMap<int, JumpType>

  /** `isEntryMarked`: the mark is `Entry` or `Bounce`; an unmarked key is not. */
  predicate EntryMarked(m: Option<JumpType>) {
    m == Some(Entry) || m == Some(Bounce)
  }

  /** `isExitMarked`: the mark is `Exit` or `Bounce`. */
  predicate ExitMarked(m: Option<JumpType>) {
    m == Some(Exit) || m == Some(Bounce)
  }

  /**
   * The mark `markBlockEntry` leaves on a statement marked `m`: an exit
   * becomes a bounce, a bounce stays, anything else becomes an entry.
   */
  function MarkedEntry(m: Option<JumpType>): (r: JumpType)
    ensures EntryMarked(Some(r))
    ensures ExitMarked(Some(r)) <==> ExitMarked(m)
  {
    if m == Some(Exit) then Bounce
    else if m != Some(Bounce) then Entry
    else Bounce
  }

  /** The mark `markBlockExit` leaves: the mirror image of `MarkedEntry`. */
  function MarkedExit(m: Option<JumpType>): (r: JumpType)
    ensures ExitMarked(Some(r))
    ensures EntryMarked(Some(r)) <==> EntryMarked(m)
  {
    if m == Some(Entry) then Bounce
    else if m != Some(Bounce) then Exit
    else Bounce
  }

  /** Marking twice is marking once. */
  lemma MarkIdempotent(m: Option<JumpType>)
    ensures MarkedEntry(Some(MarkedEntry(m))) == MarkedEntry(m)
    ensures MarkedExit(Some(MarkedExit(m))) == MarkedExit(m)
  {
  }

  /** A statement marked both as entry and as exit, in either order, bounces. */
  lemma MarksMeet(m: Option<JumpType>)
    ensures MarkedExit(Some(MarkedEntry(m))) == Bounce
    ensures MarkedEntry(Some(MarkedExit(m))) == Bounce
  {
  }

  /** `markBlockEntry` on the mapping: only the mark of `k` changes, and a new key goes last. */
  function MarkEntryIn(mapping: Mapping, k: int): (r: Mapping)
    ensures EntryMarked(Get(r, k))
    ensures ExitMarked(Get(r, k)) <==> ExitMarked(Get(mapping, k))
    ensures forall j :: j != k ==> Get(r, j) == Get(mapping, j)
  {
    Put(mapping, k, MarkedEntry(Get(mapping, k)))
  }

  /** `markBlockExit` on the mapping. */
  function MarkExitIn(mapping: Mapping, k: int): (r: Mapping)
    ensures ExitMarked(Get(r, k))
    ensures EntryMarked(Get(r, k)) <==> EntryMarked(Get(mapping, k))
    ensures forall j :: j != k ==> Get(r, j) == Get(mapping, j)
  {
    Put(mapping, k, MarkedExit(Get(mapping, k)))
  }

  /** Marks only grow: every entry and exit mark of `before` is still in `after`. */
  ghost predicate Grows(before: Mapping, after: Mapping) {
    forall k :: (EntryMarked(Get(before, k)) ==> EntryMarked(Get(after, k)))
      && (ExitMarked(Get(before, k)) ==> ExitMarked(Get(after, k)))
  }

  lemma GrowsTrans(a: Mapping, b: Mapping, c: Mapping)
    requires Grows(a, b) && Grows(b, c)
    ensures Grows(a, c)
  {
  }

  /** The keys in `keys` whose statements are entry-marked, in the same order: the block starts. */
  function EntryKeys(mapping: Mapping, keys: seq<int>): (starts: seq<int>)
    ensures forall k :: k in starts <==> k in keys && EntryMarked(Get(mapping, k))
    ensures |starts| <= |keys|
  {
    if keys == [] then []
    else
      var rest := EntryKeys(mapping, keys[..|keys| - 1]);
      if EntryMarked(Get(mapping, keys[|keys| - 1])) then rest + [keys[|keys| - 1]] else rest
  }

  /** Entry keys taken from a distinct key list are distinct. */
  lemma {:induction false} EntryKeysDistinct(mapping: Mapping, keys: seq<int>)
    requires Distinct(keys)
    ensures Distinct(EntryKeys(mapping, keys))
  {
    if keys != [] {
      var init := keys[..|keys| - 1];
      DistinctInit(keys);
      EntryKeysDistinct(mapping, init);
      var rest := EntryKeys(mapping, init);
      DistinctSnoc(rest, keys[|keys| - 1]);
    }
  }
}
