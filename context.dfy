/**
 * The run state one decompilation shares between its stages: the symbol
 * table, the definitions that reach each block, the class being decompiled
 * and the files its output goes to. Files are modelled by their paths.
 */
module Context {
  import opened Wrappers
  import opened Text
  import opened LinkedMaps
  import opened Config

  /** The configuration key of the path the control-flow graph is written to. */
  const CfgPathKey: string := "decompiledCFGPath"

  /** The configuration key of the directory the Kotlin sources are written to. */
  const SourcesPathKey: string := "decompiledSourcesPath"

  /** The last `.`-separated segment of a class name: the class's simple name. */
  function SimpleName(className: string): (r: string)
    ensures '.' !in r
  {
    var pieces := Split(className, ".");
    SplitPiecesFree(className, ".");
    ContainsChar(pieces[|pieces| - 1], '.');
    pieces[|pieces| - 1]
  }

  /**
   * The target file's name: the simple name without its last two characters,
   * then `.kt`; a simple name shorter than two characters throws.
   */
  function TargetFileName(className: string): (r: Result<string>)
    ensures r.Ok? <==> |SimpleName(className)| >= 2
    ensures r.Err? ==> r.error == IndexOutOfBounds
    ensures r.Ok? ==> |r.value| == |SimpleName(className)| + 1 && r.value[|r.value| - 3..] == ".kt"
    ensures r.Ok? ==> var stem := r.value[..|r.value| - 3];
      stem <= SimpleName(className) && |SimpleName(className)| == |stem| + 2
  {
    var name := SimpleName(className);
    if |name| < 2 then Err(IndexOutOfBounds) else Ok(name[..|name| - 2] + ".kt")
  }

  /** The simple name of a qualified class name is the part after its last dot. */
  lemma SimpleNameQualified(package: string, name: string)
    requires '.' !in name
    ensures SimpleName(package + "." + name) == name
  {
    SplitLast(package, '.', name);
  }

  /** A class name without a dot is its own simple name. */
  lemma SimpleNameUnqualified(name: string)
    requires '.' !in name
    ensures SimpleName(name) == name
  {
    ContainsChar(name, '.');
    SplitNone(name, ".");
  }

  /**
   * A class `pkg.Base` + two final characters is written to `Base.kt`: the
   * file-level class `pkg.BaseKt`, the class Kotlin compiles the top level
   * of `Base.kt` into, goes back to `Base.kt`.
   */
  lemma TargetFileOfFileClass(package: string, base: string, last2: string)
    requires |last2| == 2 && '.' !in base + last2
    ensures TargetFileName(package + "." + base + last2) == Ok(base + ".kt")
  {
    var name := base + last2;
    assert package + "." + base + last2 == package + "." + name;
    SimpleNameQualified(package, name);
    assert name[..|name| - 2] == base;
  }

  /** The values of an insertion-ordered map are exactly the values some key maps to. */
  lemma ValuesOf<K(!new), V>(m: LinkedMap<K, V>, v: V)
    ensures v in Values(m) <==> exists k :: Get(m, k) == Some(v)
  {
    var values := Values(m);
    if exists k :: Get(m, k) == Some(v) {
      var k :| Get(m, k) == Some(v);
      var i :| 0 <= i < |m.order| && m.order[i] == k;
      assert values[i] == v;
    }
  }

  /** Replacing the whole of a text with nothing leaves nothing. */
  lemma ReplaceWhole(s: string)
    requires s != []
    ensures Replace(s, s, "") == ""
  {
    assert OccursAt(s, s, 0);
    ReplaceStep(s, s, "", 0);
    assert s[|s|..] == "";
  }

  /** `Context`: the state of one decompilation. */
  class Context {
    const config: DecompilerConfig
    /** The name of the class being decompiled; `JavaClass` itself is not modelled. */
    var classFile: Option<string>
    var targetFile: Option<string>
    var targetCFGFile: string
    /** Every symbol, unique and prefixed by its block's key, mapped to its value. */
    var symbolTable: LinkedMap<string, string>
    /** For each block key, the definitions that leave the block and may be referenced. */
    var viableOutReachDefs: map<int, seq<string>>
    /** For each block key, the definitions that enter the block and may be referenced. */
    var viableInReachDefs: map<int, seq<string>>

    constructor Init(config: DecompilerConfig, cfgPath: string)
      ensures this.config == config && targetCFGFile == cfgPath
      ensures classFile == None && targetFile == None
      ensures symbolTable == Empty() && viableOutReachDefs == map[] && viableInReachDefs == map[]
    {
      this.config := config;
      targetCFGFile := cfgPath;
      classFile := None;
      targetFile := None;
      symbolTable := Empty();
      viableOutReachDefs := map[];
      viableInReachDefs := map[];
    }

    /**
     * `Context(config)`: the graph's output path comes from the configuration,
     * and creating a context without that key throws.
     */
    static method New(config: DecompilerConfig) returns (r: Result<Context>)
      ensures r.Ok? <==> config.GetConfig(CfgPathKey).Some?
      ensures r.Err? ==> r.error == NullPointer
      ensures r.Ok? ==> fresh(r.value) && r.value.config == config
      ensures r.Ok? ==> r.value.targetCFGFile == config.GetConfig(CfgPathKey).value
      ensures r.Ok? ==> r.value.symbolTable == Empty()
      ensures r.Ok? ==> r.value.viableOutReachDefs == map[] && r.value.viableInReachDefs == map[]
    {
      var path := config.GetConfig(CfgPathKey);
      if path.None? {
        return Err(NullPointer);
      }
      var context := new Context.Init(config, path.value);
      return Ok(context);
    }

    /**
     * `setClassFile`: records the class, then derives the target file from
     * its name; a too-short name throws after the class is recorded.
     */
    method SetClassFile(className: string) returns (r: Result<()>)
      modifies this
      ensures classFile == Some(className)
      ensures r.Ok? <==> TargetFileName(className).Ok?
      ensures r.Err? ==> r.error == IndexOutOfBounds && targetFile == old(targetFile)
      ensures r.Ok? ==> targetFile == Some(TemplateText(config.GetConfig(SourcesPathKey)) + TargetFileName(className).value)
      ensures symbolTable == old(symbolTable) && targetCFGFile == old(targetCFGFile)
      ensures viableOutReachDefs == old(viableOutReachDefs) && viableInReachDefs == old(viableInReachDefs)
    {
      classFile := Some(className);
      r := SetTargetFile();
    }

    /** `setTargetFile`: the configured sources directory followed by the target file's name. */
    method SetTargetFile() returns (r: Result<()>)
      modifies this
      ensures r.Ok? <==> classFile.Some? && TargetFileName(classFile.value).Ok?
      ensures r.Err? ==> targetFile == old(targetFile)
      ensures r.Err? ==> r.error == if classFile.None? then UninitializedProperty else IndexOutOfBounds
      ensures r.Ok? ==> targetFile == Some(TemplateText(config.GetConfig(SourcesPathKey)) + TargetFileName(classFile.value).value)
      ensures classFile == old(classFile) && symbolTable == old(symbolTable) && targetCFGFile == old(targetCFGFile)
      ensures viableOutReachDefs == old(viableOutReachDefs) && viableInReachDefs == old(viableInReachDefs)
    {
      if classFile.None? {
        return Err(UninitializedProperty);
      }
      var fileName := TargetFileName(classFile.value);
      if fileName.Err? {
        return Err(fileName.error);
      }
      targetFile := Some(TemplateText(config.GetConfig(SourcesPathKey)) + fileName.value);
      return Ok(());
    }

    /** `getClassFile`: reading the class before it was set throws. */
    function GetClassFile(): (r: Result<string>)
      reads this
      ensures r.Ok? <==> classFile.Some?
      ensures r.Err? ==> r.error == UninitializedProperty
      ensures r.Ok? ==> classFile == Some(r.value)
    {
      if classFile.Some? then Ok(classFile.value) else Err(UninitializedProperty)
    }

    /** `setSymbol`: only `symbolName` changes, to `value`. */
    method SetSymbol(symbolName: string, value: string)
      modifies this
      ensures GetSymbol(symbolName) == Some(value)
      ensures forall other :: other != symbolName ==> GetSymbol(other) == old(GetSymbol(other))
      ensures symbolTable == Put(old(symbolTable), symbolName, value)
      ensures viableOutReachDefs == old(viableOutReachDefs) && viableInReachDefs == old(viableInReachDefs)
      ensures classFile == old(classFile) && targetFile == old(targetFile) && targetCFGFile == old(targetCFGFile)
    {
      symbolTable := Put(symbolTable, symbolName, value);
    }

    /** `getSymbol`: the value of `symbolName`, or null when it was never set. */
    function GetSymbol(symbolName: string): (r: Option<string>)
      reads this
      ensures r.Some? <==> symbolName in symbolTable.order
    {
      Get(symbolTable, symbolName)
    }

    /** `setOutReachDef`: block `blockKey`'s out-definitions become `[defName]`, replacing any earlier list. */
    method SetOutReachDef(blockKey: int, defName: string)
      modifies this
      ensures GetOutReachDefs(blockKey) == Some([defName])
      ensures forall k :: k != blockKey ==> GetOutReachDefs(k) == old(GetOutReachDefs(k))
      ensures forall k :: GetInReachDefs(k) == old(GetInReachDefs(k))
      ensures viableOutReachDefs == old(viableOutReachDefs)[blockKey := [defName]]
      ensures viableInReachDefs == old(viableInReachDefs) && symbolTable == old(symbolTable)
      ensures classFile == old(classFile) && targetFile == old(targetFile) && targetCFGFile == old(targetCFGFile)
    {
      viableOutReachDefs := viableOutReachDefs[blockKey := [defName]];
    }

    /** `getOutReachDefs`: the out-definitions of a block, or null for a block never set. */
    function GetOutReachDefs(blockKey: int): (r: Option<seq<string>>)
      reads this
      ensures r.Some? <==> blockKey in viableOutReachDefs
      ensures r.Some? ==> r.value == viableOutReachDefs[blockKey]
    {
      if blockKey in viableOutReachDefs then Some(viableOutReachDefs[blockKey]) else None
    }

    /** `setInReachDef`: block `blockKey`'s in-definitions become `[defName]`; the out-map is untouched. */
    method SetInReachDef(blockKey: int, defName: string)
      modifies this
      ensures GetInReachDefs(blockKey) == Some([defName])
      ensures forall k :: k != blockKey ==> GetInReachDefs(k) == old(GetInReachDefs(k))
      ensures forall k :: GetOutReachDefs(k) == old(GetOutReachDefs(k))
      ensures viableInReachDefs == old(viableInReachDefs)[blockKey := [defName]]
      ensures viableOutReachDefs == old(viableOutReachDefs) && symbolTable == old(symbolTable)
      ensures classFile == old(classFile) && targetFile == old(targetFile) && targetCFGFile == old(targetCFGFile)
    {
      viableInReachDefs := viableInReachDefs[blockKey := [defName]];
    }

    /** `getInReachDefs`: the in-definitions of a block, or null for a block never set. */
    function GetInReachDefs(blockKey: int): (r: Option<seq<string>>)
      reads this
      ensures r.Some? <==> blockKey in viableInReachDefs
      ensures r.Some? ==> r.value == viableInReachDefs[blockKey]
    {
      if blockKey in viableInReachDefs then Some(viableInReachDefs[blockKey]) else None
    }

    /**
     * `getBlockForSymbolName`: the values are searched in insertion order for
     * one that is exactly `target^`; the match, with `target^` removed, is
     * returned, so a hit is always the empty text.
     */
    method GetBlockForSymbolName(target: string) returns (r: Option<string>)
      ensures r.Some? <==> exists name :: GetSymbol(name) == Some(target + "^")
      ensures r.Some? ==> r.value == ""
    {
      var values := Values(symbolTable);
      var pattern := target + "^";
      var i := 0;
      while i < |values|
        invariant 0 <= i <= |values|
        invariant forall j :: 0 <= j < i ==> values[j] != pattern
      {
        if values[i] == pattern {
          ValuesOf(symbolTable, pattern);
          var name :| Get(symbolTable, name) == Some(pattern);
          assert GetSymbol(name) == Some(pattern);
          ReplaceWhole(pattern);
          return Some(Replace(values[i], pattern, ""));
        }
        i := i + 1;
      }
      ValuesOf(symbolTable, pattern);
      return None;
    }
  }
}
