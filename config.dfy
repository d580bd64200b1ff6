/**
 * The decompiler's configuration: a file of `key = value` lines read into a
 * map once, then looked up by key. The file's lines are given as a value;
 * opening and reading the file is not modelled.
 */
module Config {
  import opened Wrappers
  import opened Text

  /** What separates a key from its value on a configuration line. */
  const Separator: string := " = "

  /**
   * `line.split(" = ")` read as `pair[0]` and `pair[1]`: the key is the text
   * before the first separator and the value the text up to the next one. A
   * line without the separator has no second piece, so reading it throws.
   */
  function ParseLine(line: string): (r: Result<(string, string)>)
    ensures r.Ok? <==> Contains(line, Separator)
    ensures r.Err? ==> r.error == IndexOutOfBounds
    ensures r.Ok? ==> !Contains(r.value.0, Separator) && !Contains(r.value.1, Separator)
  {
    var pair := Split(line, Separator);
    SplitPiecesFree(line, Separator);
    if |pair| < 2 then Err(IndexOutOfBounds) else Ok((pair[0], pair[1]))
  }

  /**
   * The map the `init` block of `DecompilerConfig` builds from `lines`, line
   * after line, or the exception of the first line without a separator.
   */
  function Parse(lines: seq<string>): (r: Result<map<string, string>>)
    ensures r.Err? ==> r.error == IndexOutOfBounds
  {
    if lines == [] then Ok(map[])
    else
      var init := Parse(lines[..|lines| - 1]);
      var line := ParseLine(lines[|lines| - 1]);
      if init.Err? then init
      else if line.Err? then Err(line.error)
      else Ok(init.value[line.value.0 := line.value.1])
  }

  /** A key without spaces, the separator and a value without the separator read back as that key and value. */
  lemma ParseLineRoundTrip(key: string, value: string)
    requires ' ' !in key && !Contains(value, Separator)
    ensures ParseLine(key + Separator + value) == Ok((key, value))
  {
    SplitFirst(key, Separator, value);
    SplitNone(value, Separator);
  }

  /** A line that reads as a key and a value begins with the key, the separator and the value. */
  lemma ParseLineParts(line: string)
    requires ParseLine(line).Ok?
    ensures var (key, value) := ParseLine(line).value;
      |key + Separator + value| <= |line| && line[..|key + Separator + value|] == key + Separator + value
  {
    var pieces := Split(line, Separator);
    var key, rest := pieces[0], pieces[1..];
    SplitJoin(line, Separator);
    assert pieces == [key] + rest;
    JoinCons(key, rest, Separator);
    JoinStartsWithFirst(rest, Separator);
    var tail := Join(rest, Separator);
    assert line == key + Separator + tail;
    assert tail[..|rest[0]|] == rest[0];
  }

  /** A joined text begins with its first piece. */
  lemma JoinStartsWithFirst(pieces: seq<string>, sep: string)
    requires |pieces| >= 1
    ensures |pieces[0]| <= |Join(pieces, sep)| && Join(pieces, sep)[..|pieces[0]|] == pieces[0]
  {
    if |pieces| > 1 {
      var tail := Join(pieces[1..], sep);
      assert Join(pieces, sep) == pieces[0] + (sep + tail);
    }
  }

  /** Reading one more line: the map so far, updated with that line's key and value. */
  lemma ParseSnoc(lines: seq<string>, i: nat)
    requires i < |lines|
    ensures Parse(lines[..i + 1]) ==
      if Parse(lines[..i]).Err? then Parse(lines[..i])
      else if ParseLine(lines[i]).Err? then Err(IndexOutOfBounds)
      else Ok(Parse(lines[..i]).value[ParseLine(lines[i]).value.0 := ParseLine(lines[i]).value.1])
  {
    assert lines[..i + 1][..i] == lines[..i];
    assert lines[..i + 1][i] == lines[i];
  }

  /** The configuration reads without an exception exactly when every line holds the separator. */
  lemma {:induction false} ParseOk(lines: seq<string>)
    ensures Parse(lines).Ok? <==> forall i :: 0 <= i < |lines| ==> Contains(lines[i], Separator)
  {
    if lines != [] {
      var init := lines[..|lines| - 1];
      ParseOk(init);
      assert forall i :: 0 <= i < |init| ==> init[i] == lines[i];
    }
  }

  /** Every key of the map comes from some line, and every line's key is in the map. */
  lemma {:induction false} ParseKeys(lines: seq<string>, name: string)
    requires Parse(lines).Ok?
    ensures name in Parse(lines).value <==>
      exists i :: 0 <= i < |lines| && ParseLine(lines[i]).Ok? && ParseLine(lines[i]).value.0 == name
  {
    if lines != [] {
      var init := lines[..|lines| - 1];
      ParseKeys(init, name);
      assert forall i :: 0 <= i < |init| ==> init[i] == lines[i];
      if name in Parse(lines).value && ParseLine(lines[|lines| - 1]).value.0 != name {
        var i :| 0 <= i < |init| && ParseLine(init[i]).Ok? && ParseLine(init[i]).value.0 == name;
        assert ParseLine(lines[i]).Ok? && ParseLine(lines[i]).value.0 == name;
      }
    }
  }

  /** A later line with the same key wins: the value stored for a key is that of its last line. */
  lemma {:induction false} ParseLast(lines: seq<string>, i: nat, name: string, value: string)
    requires Parse(lines).Ok? && i < |lines| && ParseLine(lines[i]) == Ok((name, value))
    requires forall j :: i < j < |lines| && ParseLine(lines[j]).Ok? ==> ParseLine(lines[j]).value.0 != name
    ensures name in Parse(lines).value && Parse(lines).value[name] == value
  {
    var init := lines[..|lines| - 1];
    if i < |lines| - 1 {
      assert forall j :: 0 <= j < |init| ==> init[j] == lines[j];
      ParseLast(init, i, name, value);
      assert ParseLine(lines[|lines| - 1]).value.0 != name;
    }
  }

  /** The map never holds more keys than there are lines. */
  lemma {:induction false} ParseSize(lines: seq<string>)
    requires Parse(lines).Ok?
    ensures |Parse(lines).value| <= |lines|
  {
    if lines != [] {
      var init := lines[..|lines| - 1];
      ParseSize(init);
      var m := Parse(init).value;
      var key := ParseLine(lines[|lines| - 1]).value.0;
      if key in m {
        assert m[key := ParseLine(lines[|lines| - 1]).value.1].Keys == m.Keys;
      } else {
        assert m[key := ParseLine(lines[|lines| - 1]).value.1].Keys == m.Keys + {key};
      }
    }
  }

  /** `DecompilerConfig`: the map read from the configuration file. */
  class DecompilerConfig {
    var cfg: map<string, string>

    constructor Empty()
      ensures cfg == map[]
    {
      cfg := map[];
    }

    /**
     * The `init` block over the file's lines: each line is split and its key
     * set to its value, in order; the first line without the separator throws.
     */
    static method Load(lines: seq<string>) returns (r: Result<DecompilerConfig>)
      ensures r.Ok? <==> Parse(lines).Ok?
      ensures r.Err? ==> r.error == IndexOutOfBounds
      ensures r.Ok? ==> fresh(r.value) && r.value.cfg == Parse(lines).value
    {
      var config := new DecompilerConfig.Empty();
      var i := 0;
      while i < |lines|
        invariant 0 <= i <= |lines|
        invariant Parse(lines[..i]) == Ok(config.cfg)
      {
        ParseSnoc(lines, i);
        var pair := Split(lines[i], Separator);
        if |pair| < 2 {
          PrefixFails(lines, i + 1);
          return Err(IndexOutOfBounds);
        }
        config.cfg := config.cfg[pair[0] := pair[1]];
        i := i + 1;
      }
      assert lines[..i] == lines;
      return Ok(config);
    }

    /** `getConfig(name)`: the value stored for `name`, or null when no line had that key. */
    function GetConfig(name: string): (r: Option<string>)
      reads this
      ensures r.Some? <==> name in cfg
      ensures r.Some? ==> r.value == cfg[name]
    {
      if name in cfg then Some(cfg[name]) else None
    }
  }

  /** Once a prefix of the lines fails to read, so do all the lines. */
  lemma {:induction false} PrefixFails(lines: seq<string>, n: nat)
    requires n <= |lines| && Parse(lines[..n]).Err?
    ensures Parse(lines).Err?
  {
    ParseOk(lines[..n]);
    ParseOk(lines);
    var i :| 0 <= i < n && !Contains(lines[..n][i], Separator);
    assert lines[..n][i] == lines[i];
  }
}
