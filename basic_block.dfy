/**
 * A basic block: the statements of one straight-line stretch of a method,
 * keyed by statement index, with the index its final jump goes to and a
 * flag that marks it as a loop header.
 */
module Blocks {
  import opened Wrappers
  import opened Text
  import opened LinkedMaps

  /** Statements keyed by byte index (later by statement number), in insertion order. */
  type Code = LinkedMap<int, string>

  /** One printed line: the key when it is not negative, a tab, the statement, a newline. */
  function Line(key: int, stmt: string): string {
    (if key >= 0 then IntToString(key) else "") + "\t" + stmt + "\n"
  }

  /** The lines of `entries`, one after another. */
  function Lines(entries: seq<(int, string)>): string {
    if entries == [] then "" else Lines(entries[..|entries| - 1]) + Line(entries[|entries| - 1].0, entries[|entries| - 1].1)
  }

  /** The text of a statement table, one line per entry in key order. */
  function Render(code: Code): string {
    Lines(Entries(code))
  }

  /** Adding a statement under a new key adds its line at the end of the text. */
  lemma RenderPut(code: Code, key: int, stmt: string)
    requires key !in code.entries
    ensures Render(Put(code, key, stmt)) == Render(code) + Line(key, stmt)
  {
    var after := Entries(Put(code, key, stmt));
    assert after == Entries(code) + [(key, stmt)];
    assert after[..|after| - 1] == Entries(code);
  }

  /** The text of two runs of entries is the text of the first followed by that of the second. */
  lemma {:induction false} LinesAppend(a: seq<(int, string)>, b: seq<(int, string)>)
    ensures Lines(a + b) == Lines(a) + Lines(b)
    decreases |b|
  {
    if b != [] {
      LinesAppend(a, b[..|b| - 1]);
      assert (a + b)[..|a + b| - 1] == a + b[..|b| - 1];
    } else {
      assert a + b == a;
    }
  }

  class BasicBlock {
    var code: Code
    const jumpTo: Option<int>
    var isHeader: bool

    constructor(code: Code, jumpTo: Option<int>)
      ensures this.code == code && this.jumpTo == jumpTo && !isHeader
    {
      this.code := code;
      this.jumpTo := jumpTo;
      isHeader := false;
    }

    /** `containsByteIndex`: the block has a statement under `byteIndex`. */
    function ContainsByteIndex(byteIndex: int): (r: bool)
      reads this
      ensures r <==> byteIndex in code.order
    {
      byteIndex in code.entries
    }

    /** Marks the block as a loop header; the statements and the jump stay as they are. */
    method SetBlockHeader()
      modifies this
      ensures isHeader && code == old(code)
    {
      isHeader := true;
    }

    function IsHeader(): bool
      reads this
    {
      isHeader
    }

    /** The block's text, built line by line in key order. */
    method ToString() returns (result: string)
      ensures result == Render(code)
    {
      var entries := Entries(code);
      result := "";
      var i := 0;
      while i < |entries|
        invariant 0 <= i <= |entries|
        invariant result == Lines(entries[..i])
      {
        if entries[i].0 >= 0 {
          result := result + IntToString(entries[i].0);
        }
        result := result + "\t" + entries[i].1 + "\n";
        assert entries[..i + 1][..i] == entries[..i];
        i := i + 1;
      }
      assert entries[..i] == entries;
    }
  }
}
