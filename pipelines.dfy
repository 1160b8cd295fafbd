/**
 * `Pipeline`: the block arena (`blockList_`, block 0 being the default
 * block), the procedure table (`procList_`) and the line where each
 * procedure was declared (`procAtLineNo_`). Its loader methods walk a
 * `LineCursor` and are proved to compute the functions of module `Loader`;
 * its queries are functions of the state.
 */
module Pipelines {
  import opened Wrappers
  import opened Collaborators
  import opened Document
  import opened Rewrite
  import opened Loader

  class Pipeline {
    /** The collaborators this pipeline loads and renders with. */
    const env: Env
    var blockList: seq<Block>
    var procList: map<string, Procedure>
    var procAtLineNo: map<string, nat>

    /** The state as the loader functions see it, with the variables `confMap`. */
    ghost function Snapshot(confMap: map<string, string>): LoadState
      reads this
    {
      LoadState(blockList, procList, procAtLineNo, confMap)
    }

    /**
     * The arena is well formed (block references point to existing blocks
     * other than block 0, and inside the arena only backwards), every
     * procedure names a block other than block 0, and every procedure has a
     * recorded declaration line.
     */
    ghost predicate Valid()
      reads this
    {
      StateOk(Snapshot(map[]))
    }

    /** A pipeline with one empty sequential default block and no procedures. */
    constructor(env: Env)
      ensures Valid() && this.env == env
      ensures blockList == [EmptyBlock(false)] && procList == map[] && procAtLineNo == map[]
    {
      this.env := env;
      blockList := [EmptyBlock(false)];
      procList := map[];
      procAtLineNo := map[];
    }

    // -------------------------------------------------------------------------
    // The arena
    // -------------------------------------------------------------------------

    /** Stores `block` at the end of the arena and returns its index; earlier blocks are unchanged. */
    method AppendBlock(block: Block) returns (index: nat)
      modifies this
      ensures index == old(|blockList|) && blockList == old(blockList) + [block]
      ensures procList == old(procList) && procAtLineNo == old(procAtLineNo)
    {
      index := |blockList|;
      blockList := blockList + [block];
    }

    // -------------------------------------------------------------------------
    // Loading
    // -------------------------------------------------------------------------

    /** Looks for the left bracket of a procedure body, from the current line on. */
    method ReadLeftBracket(file: LineCursor) returns (ok: bool, bracket: Bracket)
      requires file.Valid() && 1 <= file.lineNo
      modifies file
      ensures Bracketed(ok, file.lineNo, bracket) == ReadLeftBracketSpec(env, file.lines, old(file.lineNo))
    {
      ghost var n0 := file.lineNo;
      while true
        invariant file.Valid() && 1 <= file.lineNo
        invariant ReadLeftBracketSpec(env, file.lines, file.lineNo) == ReadLeftBracketSpec(env, file.lines, n0)
        decreases |file.lines| - file.lineNo
      {
        var line := file.CurrentLine();
        if env.isEmptyLine(line) {
        } else if env.isCommentLine(line) {
          if env.isDescLine(line) {
            return false, Single;
          }
        } else if env.leftBracket(line).None? {
          return false, Single;
        } else {
          return true, env.leftBracket(line).value;
        }
        var more := file.ReadLine();
        if !more {
          return false, Single;
        }
      }
    }

    /**
     * Loads a block from the current line up to its right bracket; nested
     * blocks are appended to the arena as they close.
     */
    method LoadBlock(file: LineCursor, parallel: bool) returns (ok: bool, block: Block)
      requires file.Valid() && 1 <= file.lineNo
      modifies this, file
      ensures var r := LoadBlockSpec(env, file.lines, old(file.lineNo), old(blockList), parallel);
        ok == r.ok && file.lineNo == r.pos && blockList == r.blocks && block == r.block
      ensures procList == old(procList) && procAtLineNo == old(procAtLineNo)
      decreases |file.lines| - file.lineNo, 1
    {
      ghost var n0 := file.lineNo;
      ghost var target := LoadBlockSpec(env, file.lines, n0, blockList, parallel);
      block := EmptyBlock(parallel);
      while true
        invariant file.Valid() && n0 <= file.lineNo && 1 <= file.lineNo
        invariant LoadItems(env, file.lines, file.lineNo, blockList, block) == target
        invariant block.parallel == parallel
        invariant procList == old(procList) && procAtLineNo == old(procAtLineNo)
        decreases |file.lines| - file.lineNo
      {
        ghost var n, blocks, current := file.lineNo, blockList, block;
        var line := file.CurrentLine();
        var right := env.rightBracket(line);
        if right.Some? {
          if !parallel && right.value == Double {
            return false, block;
          } else if parallel && right.value == Single {
            return false, block;
          }
          return true, block;
        }
        var left := env.leftBracket(line);
        var stepOk;
        if left.Some? {
          stepOk, block := LoadNestedBlock(file, block, left.value);
        } else {
          stepOk, block := LoadCommandLine(file, block);
        }
        if !stepOk {
          return false, block;
        }
      }
    }

    /**
     * The left-bracket step of `LoadBlock`: the nested block is loaded from
     * the next line, appended to the arena and referred to from `block`, and
     * the line after its right bracket becomes current.
     */
    method LoadNestedBlock(file: LineCursor, block: Block, bracket: Bracket) returns (ok: bool, r: Block)
      requires file.Valid() && 1 <= file.lineNo && env.leftBracket(file.lines[file.lineNo - 1]) == Some(bracket)
      modifies this, file
      ensures file.Valid() && old(file.lineNo) <= file.lineNo && 1 <= file.lineNo && r.parallel == block.parallel
      ensures var rest := LoadNested(env, file.lines, old(file.lineNo), old(blockList), block);
        if ok then old(file.lineNo) < file.lineNo && LoadItems(env, file.lines, file.lineNo, blockList, r) == rest
        else rest == Loaded(false, file.lineNo, blockList, r)
      ensures procList == old(procList) && procAtLineNo == old(procAtLineNo)
      decreases |file.lines| - file.lineNo, 0
    {
      ghost var n, blocks := file.lineNo, blockList;
      r := block;
      var more := file.ReadLine();
      if !more {
        return false, r;
      }
      var subOk, subBlock := LoadBlock(file, bracket == Double);
      ghost var sub := Loaded(subOk, file.lineNo, blockList, subBlock);
      NestedStep(env, file.lines, n, blocks, block, sub);
      if !subOk {
        return false, r;
      }
      var blockIndex := AppendBlock(subBlock);
      r := block.AppendBlock(blockIndex);
      assert blockList == sub.blocks + [sub.block] && r == block.AppendBlock(|sub.blocks|);
      more := file.ReadLine();
      if !more {
        return false, r;
      }
      return true, r;
    }

    /** The command step of `LoadBlock`: a command, and then the next line becomes current. */
    method LoadCommandLine(file: LineCursor, block: Block) returns (ok: bool, r: Block)
      requires file.Valid() && 1 <= file.lineNo
      modifies file
      ensures file.Valid() && old(file.lineNo) <= file.lineNo && 1 <= file.lineNo && r.parallel == block.parallel
      ensures var rest := LoadCommand(env, file.lines, old(file.lineNo), blockList, block);
        if ok then old(file.lineNo) < file.lineNo && LoadItems(env, file.lines, file.lineNo, blockList, r) == rest
        else rest == Loaded(false, file.lineNo, blockList, r)
    {
      ghost var n := file.lineNo;
      var cmdOk;
      cmdOk, r := AppendCommandLineFromFile(file, block);
      CommandStep(env, file.lines, n, blockList, block, AppendCommandSpec(env, file.lines, n, block));
      if !cmdOk {
        return false, r;
      }
      var more := file.ReadLine();
      if !more {
        return false, r;
      }
      return true, r;
    }

    /**
     * Appends the command that starts on the current line to `block`, taking
     * in continuation lines while the parser reports the text unfinished.
     */
    method AppendCommandLineFromFile(file: LineCursor, block: Block) returns (ok: bool, r: Block)
      requires file.Valid() && 1 <= file.lineNo
      modifies file
      ensures var c := AppendCommandSpec(env, file.lines, old(file.lineNo), block);
        ok == c.0.ok && file.lineNo == c.0.pos && r == c.1
    {
      ghost var target := AppendCommandSpec(env, file.lines, file.lineNo, block);
      var lines := env.trim(file.CurrentLine());
      while true
        invariant file.Valid() && 1 <= file.lineNo
        invariant Gather(env, file.lines, file.lineNo, lines) == target.0
        decreases |file.lines| - file.lineNo
      {
        var parsed := env.parse(lines);
        if !parsed.Parsed? {
          if parsed.Unfinished? {
            var more;
            more, lines := ReadContinuation(file, lines);
            if !more {
              return false, block;
            }
            continue;
          }
          return false, block;
        }
        assert target.0 == Gathered(true, file.lineNo, lines);
        r := block;
        if lines != "" {
          r := block.AppendCommand(lines);
        }
        return true, r;
      }
    }

    /**
     * One step of `AppendCommandLineFromFile` on an unfinished text: reads the
     * next line and joins it on, or fails at the end of the file.
     */
    method ReadContinuation(file: LineCursor, text: string) returns (more: bool, lines: string)
      requires file.Valid() && 1 <= file.lineNo && env.parse(text).Unfinished?
      modifies file
      ensures file.Valid() && old(file.lineNo) <= file.lineNo
      ensures var g := Gather(env, file.lines, old(file.lineNo), text);
        if more then file.lineNo == old(file.lineNo) + 1 && g == Gather(env, file.lines, file.lineNo, lines)
        else g == Gathered(false, file.lineNo, text)
    {
      lines := text;
      more := file.ReadLine();
      if !more {
        return;
      }
      if |lines| > 0 && lines[|lines| - 1] == '\\' {
        lines := lines[..|lines| - 1];
      } else {
        lines := lines + "\n";
      }
      lines := lines + env.trim(file.CurrentLine());
      assert lines == Join(text, env.trim(file.lines[file.lineNo - 1]));
    }

    /**
     * Loads the body of procedure `name` and registers it; `bracket` is the
     * bracket at the end of the header line, if there is one. Without one,
     * the bracket is looked for from the current line and the body starts on
     * the line after it, as intended (`Loader.LoadProcAsWritten` is the
     * source's order of reads).
     */
    method LoadProc(file: LineCursor, name: string, bracket: Option<Bracket>) returns (ok: bool)
      requires file.Valid() && 1 <= file.lineNo
      modifies this, file
      ensures var r := LoadProcSpec(env, file.lines, old(file.lineNo), old(blockList), old(procList), name, bracket);
        ok == r.ok && file.lineNo == r.pos && blockList == r.blocks && procList == r.procList
      ensures procAtLineNo == old(procAtLineNo)
    {
      var leftBracket: Bracket;
      if bracket.None? {
        var found;
        found, leftBracket := ReadLeftBracket(file);
        if !found {
          return false;
        }
        var more := file.ReadLine();
        if !more {
          return false;
        }
      } else {
        leftBracket := bracket.value;
      }
      var loaded, block := LoadBlock(file, leftBracket == Double);
      if !loaded {
        return false;
      }
      var blockIndex := |blockList|;
      blockList := blockList + [block];
      procList := procList[name := Procedure(name, blockIndex)];
      return true;
    }

    /**
     * Reads the variables of a configuration file into `confMap`; a file
     * that cannot be opened or a line of another kind is an error, and the
     * variables read before it are kept.
     */
    method LoadConf(filename: string, confMap: map<string, string>) returns (ok: bool, conf: map<string, string>)
      ensures (ok, conf) == LoadConfSpec(env, filename, confMap)
      ensures ok <==>
        (env.readLines(filename).Some?
         && forall i :: 0 <= i < |env.readLines(filename).value| ==> ConfLineOk(env, env.readLines(filename).value[i]))
    {
      var contents := env.readLines(filename);
      if contents.None? {
        return false, confMap;
      }
      var lines := contents.value;
      ConfLinesOk(env, lines, confMap);
      conf := confMap;
      var i := 0;
      while i < |lines|
        invariant 0 <= i <= |lines|
        invariant ConfLines(env, lines[i..], conf) == LoadConfSpec(env, filename, confMap)
      {
        var line := lines[i];
        assert lines[i..][1..] == lines[i + 1..];
        var variable := env.varLine(line);
        if variable.Some? {
          conf := conf[variable.value.0 := variable.value.1];
        } else if !env.isEmptyLine(line) && !env.isCommentLine(line) {
          return false, conf;
        }
        i := i + 1;
      }
      return true, conf;
    }

    /**
     * Loads a pipeline file: include lines, procedures, top-level blocks,
     * variables and commands of the default block, then the sibling `.conf`
     * file when there is one. Returns the variables read.
     */
    method Load(filename: string) returns (ok: bool, confMap: map<string, string>)
      requires Valid()
      modifies this
      ensures var r := LoadSpec(env, filename, old(Snapshot(map[])));
        ok == r.0 && Snapshot(confMap) == r.1
      ensures Valid()
    {
      confMap := map[];
      ghost var st0 := Snapshot(confMap);
      var contents := env.readLines(filename);
      if contents.None? {
        return false, confMap;
      }
      var file := new LineCursor(contents.value);
      var more := file.ReadLine();
      if more {
        var dir := env.dirName(filename);
        ghost var outcome := LoadLines(env, dir, file.lines, 1, st0);
        LoadLinesPreserves(env, dir, file.lines, 1, st0);
        while true
          invariant file.Valid() && 1 <= file.lineNo && file.lines == contents.value
          invariant |blockList| >= 1
          invariant LoadLines(env, dir, file.lines, file.lineNo, Snapshot(confMap)) == outcome
          decreases |file.lines| - file.lineNo
        {
          var stepOk;
          stepOk, confMap := LoadLine(file, dir, confMap);
          if !stepOk {
            return false, confMap;
          }
          more := file.ReadLine();
          if !more {
            assert outcome == Outcome(true, file.lineNo, Snapshot(confMap));
            break;
          }
        }
      }
      var confFilename := filename + ".conf";
      if env.fileExists(confFilename) {
        ok, confMap := LoadConf(confFilename, confMap);
        return ok, confMap;
      }
      return true, confMap;
    }

    /**
     * One line of the main loop of `Load`: the line at the cursor is an
     * include, a procedure header, a left bracket, an empty or comment line,
     * a variable or a command of the default block. On success the cursor is
     * on the last line the step consumed.
     */
    method LoadLine(file: LineCursor, dir: string, confMap: map<string, string>) returns (ok: bool, conf: map<string, string>)
      requires file.Valid() && 1 <= file.lineNo && |blockList| >= 1
      modifies this, file
      ensures file.Valid() && old(file.lineNo) <= file.lineNo && |blockList| >= 1
      ensures var rest := LoadLines(env, dir, file.lines, old(file.lineNo), old(Snapshot(confMap)));
        if ok then rest == Next(env, dir, file.lines, file.lineNo, Snapshot(conf))
        else rest == Outcome(false, file.lineNo, Snapshot(conf))
    {
      ghost var n, st, outcome := file.lineNo, Snapshot(confMap), LoadLines(env, dir, file.lines, file.lineNo, Snapshot(confMap));
      conf := confMap;
      var line := file.CurrentLine();
      ok := true;
      if env.incLine(line).Some? {
        assert outcome == LoadInclude(env, dir, file.lines, n, st);
        ok, conf := LoadConf(dir + "/" + env.incLine(line).value, confMap);
      } else if env.funcLine(line).Some? {
        assert outcome == LoadFunc(env, dir, file.lines, n, st);
        ok := LoadDeclaration(file, dir, conf);
      } else if env.leftBracket(line).Some? {
        assert outcome == LoadTopBlock(env, dir, file.lines, n, st);
        ok := LoadTopLevelBlock(file, dir, conf);
      } else if env.isEmptyLine(line) {
        assert outcome == Next(env, dir, file.lines, n, st);
      } else if env.isCommentLine(line) {
        assert outcome == Next(env, dir, file.lines, n, st);
      } else if env.varLine(line).Some? {
        conf := confMap[env.varLine(line).value.0 := env.varLine(line).value.1];
        assert outcome == Next(env, dir, file.lines, n, Snapshot(conf));
      } else {
        assert outcome == LoadShell(env, dir, file.lines, n, st);
        ok := LoadDefaultCommand(file, dir, conf);
      }
      assert outcome == if ok then Next(env, dir, file.lines, file.lineNo, Snapshot(conf))
        else Outcome(false, file.lineNo, Snapshot(conf));
    }

    /**
     * The procedure-header step of `Load`: a name declared before is an
     * error; otherwise its line is recorded and the body is loaded from the
     * next line, leaving the cursor on the body's last line.
     */
    method LoadDeclaration(file: LineCursor, ghost dir: string, ghost confMap: map<string, string>) returns (ok: bool)
      requires file.Valid() && 1 <= file.lineNo && |blockList| >= 1 && env.funcLine(file.lines[file.lineNo - 1]).Some?
      modifies this, file
      ensures file.Valid() && old(file.lineNo) <= file.lineNo && |blockList| >= 1
      ensures var rest := LoadFunc(env, dir, file.lines, old(file.lineNo), old(Snapshot(confMap)));
        if ok then rest == Next(env, dir, file.lines, file.lineNo, Snapshot(confMap))
        else rest == Outcome(false, file.lineNo, Snapshot(confMap))
    {
      ghost var n := file.lineNo;
      ghost var st := Snapshot(confMap);
      var header := env.funcLine(file.CurrentLine()).value;
      var procName := header.0;
      if procName in procAtLineNo {
        return false;
      }
      procAtLineNo := procAtLineNo[procName := file.lineNo];
      ghost var st1 := Snapshot(confMap);
      assert st1 == st.(procAtLineNo := st.procAtLineNo[procName := n]);
      var more := file.ReadLine();
      if !more {
        return false;
      }
      ghost var p := LoadProcSpec(env, file.lines, n + 1, st.blocks, st.procList, procName, header.1);
      LoadProcExtends(env, file.lines, n + 1, blockList, procList, procName, header.1);
      ok := LoadProc(file, procName, header.1);
      assert Snapshot(confMap) == st1.(blocks := p.blocks, procList := p.procList);
      LoadFuncBody(env, dir, file.lines, n, st);
    }

    /**
     * The block step of `Load`: the block is loaded from the next line,
     * appended to the arena and referred to from block 0, leaving the cursor
     * on its right bracket.
     */
    method LoadTopLevelBlock(file: LineCursor, ghost dir: string, ghost confMap: map<string, string>) returns (ok: bool)
      requires file.Valid() && 1 <= file.lineNo && |blockList| >= 1 && env.leftBracket(file.lines[file.lineNo - 1]).Some?
      modifies this, file
      ensures file.Valid() && old(file.lineNo) <= file.lineNo && |blockList| >= 1
      ensures procList == old(procList) && procAtLineNo == old(procAtLineNo)
      ensures var rest := LoadTopBlock(env, dir, file.lines, old(file.lineNo), old(Snapshot(confMap)));
        if ok then rest == Next(env, dir, file.lines, file.lineNo, Snapshot(confMap))
        else rest == Outcome(false, file.lineNo, Snapshot(confMap))
    {
      var left := env.leftBracket(file.CurrentLine()).value;
      var more := file.ReadLine();
      if !more {
        return false;
      }
      LoadItemsExtends(env, file.lines, file.lineNo, blockList, EmptyBlock(left == Double));
      var loaded, block := LoadBlock(file, left == Double);
      if !loaded {
        return false;
      }
      var blockIndex := |blockList|;
      blockList := blockList + [block];
      blockList := blockList[0 := blockList[0].AppendBlock(blockIndex)];
      return true;
    }

    /** The command step of `Load`: a command of the default block, leaving the cursor on its last line. */
    method LoadDefaultCommand(file: LineCursor, ghost dir: string, ghost confMap: map<string, string>) returns (ok: bool)
      requires file.Valid() && 1 <= file.lineNo && |blockList| >= 1
      modifies this, file
      ensures file.Valid() && old(file.lineNo) <= file.lineNo && |blockList| >= 1
      ensures procList == old(procList) && procAtLineNo == old(procAtLineNo)
      ensures var rest := LoadShell(env, dir, file.lines, old(file.lineNo), old(Snapshot(confMap)));
        if ok then rest == Next(env, dir, file.lines, file.lineNo, Snapshot(confMap))
        else rest == Outcome(false, file.lineNo, Snapshot(confMap))
    {
      var cmdOk, defaultBlock := AppendCommandLineFromFile(file, blockList[0]);
      blockList := blockList[0 := defaultBlock];
      return cmdOk;
    }

    // -------------------------------------------------------------------------
    // The default block
    // -------------------------------------------------------------------------

    /** Empties the default block, which becomes sequential; nothing else changes. */
    method ClearDefaultBlock()
      requires Valid()
      modifies this
      ensures Valid() && !HasAnyDefaultCommand()
      ensures blockList == old(blockList)[0 := Block([], false)]
      ensures procList == old(procList) && procAtLineNo == old(procAtLineNo)
    {
      DefaultBlockUpdate(blockList, blockList[0].Clear());
      blockList := blockList[0 := blockList[0].Clear()];
    }

    /**
     * Fills the empty default block with one shell item per command line,
     * trimmed, in the given order, and sets its kind.
     */
    method SetDefaultBlock(parallel: bool, shellCmdList: seq<string>)
      requires Valid() && blockList[0].IsEmpty()
      modifies this
      ensures Valid()
      ensures |blockList| == old(|blockList|) && blockList[1..] == old(blockList[1..])
      ensures blockList[0].parallel == parallel && |blockList[0].items| == |shellCmdList|
      ensures forall i :: 0 <= i < |shellCmdList| ==> blockList[0].items[i] == ShellItem(env.trim(shellCmdList[i]))
      ensures HasAnyDefaultCommand() <==> shellCmdList != []
      ensures procList == old(procList) && procAtLineNo == old(procAtLineNo)
    {
      var block := EmptyBlock(parallel);
      for i := 0 to |shellCmdList|
        invariant block.parallel == parallel && |block.items| == i
        invariant forall k :: 0 <= k < i ==> block.items[k] == ShellItem(env.trim(shellCmdList[k]))
      {
        block := block.AppendCommand(env.trim(shellCmdList[i]));
      }
      DefaultBlockUpdate(blockList, block);
      blockList := blockList[0 := block];
    }

    /** Makes the empty default block a single call of `procName`. */
    method SetDefaultCall(procName: string, procArgs: ProcArgs)
      requires Valid() && blockList[0].IsEmpty() && procArgs.Valid()
      modifies this
      ensures Valid() && HasAnyDefaultCommand()
      ensures blockList == old(blockList)[0 := Block([ProcItem(procName, procArgs)], old(blockList[0].parallel))]
      ensures procList == old(procList) && procAtLineNo == old(procAtLineNo)
    {
      var block := blockList[0].AppendCall(procName, procArgs);
      assert block == Block([ProcItem(procName, procArgs)], blockList[0].parallel);
      DefaultBlockUpdate(blockList, block);
      blockList := blockList[0 := block];
    }

    /** Whether the default block has any item: there is something to run outside the procedures. */
    function HasAnyDefaultCommand(): (r: bool)
      reads this
      requires Valid()
      ensures r <==> GetDefaultBlock().items != []
    {
      !blockList[0].IsEmpty()
    }

    // -------------------------------------------------------------------------
    // Queries
    // -------------------------------------------------------------------------

    /** Whether a procedure of that name was loaded: exactly the names `GetProcNameList` lists for a pattern matching everything. */
    function HasProcedure(name: string): (r: bool)
      reads this
      ensures r <==> name in Matching(SortedNames(procList.Keys), Everything)
    {
      assert Everything(name);
      name in procList
    }

    /** The default block, which every pipeline has. */
    function GetDefaultBlock(): (b: Block)
      reads this
      requires Valid()
      ensures b == blockList[0] && Some(b) == GetBlock(0)
      ensures ItemsOk(b.items, 0, |blockList|)
      ensures forall i :: 0 <= i < |b.items| && b.items[i].BlockRef? ==> 1 <= b.items[i].blockIndex < |blockList|
    {
      blockList[0]
    }

    /** Block `index` of the arena; `None` where `std::vector::at` throws. */
    function GetBlock(index: nat): (r: Option<Block>)
      reads this
      ensures r.Some? <==> index < |blockList|
      ensures r.Some? ==> r.value == blockList[index]
      ensures r.Some? && Valid() ==> ItemsOk(r.value.items, index, |blockList|)
    {
      if index < |blockList| then Some(blockList[index]) else None
    }

    /** The index of the body of procedure `procName`; `None` where the source throws for an unknown name. */
    function GetBlockIndex(procName: string): (r: Option<nat>)
      reads this
      ensures r.Some? <==> HasProcedure(procName)
      ensures r.Some? ==> r.value == procList[procName].blockIndex
      ensures r.Some? && Valid() ==> 1 <= r.value < |blockList|
    {
      if procName in procList then Some(procList[procName].blockIndex) else None
    }

    /** The body of procedure `procName`, never the default block; `None` for an unknown name. */
    function GetProcBlock(procName: string): (r: Option<Block>)
      reads this
      requires Valid()
      ensures r.Some? <==> HasProcedure(procName)
      ensures r.Some? ==> 1 <= GetBlockIndex(procName).value < |blockList|
      ensures r.Some? ==> r == GetBlock(GetBlockIndex(procName).value)
      ensures r.Some? ==> r.value == blockList[procList[procName].blockIndex]
    {
      match GetBlockIndex(procName)
      case None => None
      case Some(k) => Some(blockList[k])
    }

    /**
     * The names of the procedures that `matches`, in name order. `matches`
     * stands for `std::regex_search` with the caller's pattern.
     */
    method GetProcNameList(matches: string -> bool) returns (nameList: seq<string>)
      ensures nameList == Matching(SortedNames(procList.Keys), matches)
      ensures forall x :: x in nameList <==> x in procList && matches(x)
      ensures Ascending(nameList)
    {
      var names := SortedNames(procList.Keys);
      nameList := SelectMatching(names, matches);
      MatchingSorted(names, matches);
    }

    // -------------------------------------------------------------------------
    // After loading
    // -------------------------------------------------------------------------

    /**
     * Turns every shell item whose single command calls a loaded procedure
     * with keyword arguments into a call, block by block, stopping at the
     * first item with a repeated key.
     */
    method FinalCheckAfterLoad() returns (ok: bool)
      requires Valid()
      modifies this
      ensures (ok, blockList) == RewriteBlocks(env.parse, old(procList).Keys, old(blockList))
      ensures procList == old(procList) && procAtLineNo == old(procAtLineNo)
      ensures Valid()
    {
      var procNameSet := ProcNameSet();
      ghost var blocks := blockList;
      ghost var target := RewriteBlocks(env.parse, procNameSet, blocks);
      ghost var f := FirstFailingBlock(env.parse, procNameSet, blocks);
      RewriteBlocksAt(env.parse, procNameSet, blocks);
      var i := 0;
      while i < |blockList|
        invariant i <= f && |blockList| == |blocks|
        invariant forall k :: 0 <= k < i ==> blockList[k] == target.1[k]
        invariant forall k :: i <= k < |blockList| ==> blockList[k] == blocks[k]
        invariant procList == old(procList) && procAtLineNo == old(procAtLineNo)
      {
        assert blockList[i] == blocks[i];
        var blockOk, block := UpdateCommandToProcCalling(env.parse, procNameSet, blockList[i]);
        assert blockOk ==> i != f;
        blockList := blockList[i := block];
        if !blockOk {
          assert i == f;
          forall k | 0 <= k < |blockList|
            ensures blockList[k] == target.1[k]
          {
            if k > i {
              assert blockList[k] == blocks[k];
            }
          }
          assert blockList == target.1;
          RewriteBlocksKeeps(env.parse, procNameSet, blocks);
          return false;
        }
        i := i + 1;
      }
      assert blockList == target.1;
      RewriteBlocksKeeps(env.parse, procNameSet, blocks);
      return true;
    }

    /** The names of all procedures, gathered from `GetProcNameList` with a pattern matching every name. */
    method ProcNameSet() returns (names: set<string>)
      ensures names == procList.Keys
    {
      var procNameList := GetProcNameList(Everything);
      names := set name | name in procNameList;
    }

    // -------------------------------------------------------------------------
    // Saving
    // -------------------------------------------------------------------------

    /**
     * The text `Save` writes: every procedure in name order, then the default
     * block. `writable` says whether the file could be opened for writing; when
     * it could not, nothing is written and the result is false.
     */
    method Save(writable: bool) returns (ok: bool, text: string)
      requires Valid()
      ensures ok == writable
      ensures text == if writable then SaveText(blockList, procList, env.shellQuote) else ""
    {
      if !writable {
        return false, "";
      }
      var names := SortedNames(procList.Keys);
      text := "";
      for i := 0 to |names|
        invariant text == ProcsText(blockList, procList, names[..i], env.shellQuote)
      {
        ProcsTextStep(blockList, procList, names, i, env.shellQuote);
        text := text + ProcToStringRaw(blockList, procList[names[i]], env.shellQuote) + "\n";
      }
      assert names[..|names|] == names;
      var block := blockList[0];
      if !block.IsEmpty() {
        if |block.items| == 1 {
          text := text + ItemToString(blockList, 0, block.items[0], "", env.shellQuote);
        } else {
          text := text + BlockToString(blockList, 0, "", env.shellQuote);
        }
      }
      return true, text;
    }
  }

  /** The pattern that every name matches, as the empty regular expression does. */
  predicate Everything(name: string) {
    true
  }

  /** The names of `names` that `matches`, in their order. */
  function Matching(names: seq<string>, matches: string -> bool): (r: seq<string>)
    ensures forall x :: x in r <==> x in names && matches(x)
    ensures |r| <= |names|
  {
    if names == [] then []
    else
      var last := names[|names| - 1];
      Matching(names[..|names| - 1], matches) + (if matches(last) then [last] else [])
  }

  /** One more procedure in the text `Save` writes. */
  lemma ProcsTextStep(blocks: seq<Block>, procList: map<string, Procedure>, names: seq<string>, i: nat, quote: string -> string)
    requires WellFormed(blocks) && ProcsOk(procList, |blocks|)
    requires i < |names| && forall n :: n in names ==> n in procList
    ensures ProcsText(blocks, procList, names[..i + 1], quote)
      == ProcsText(blocks, procList, names[..i], quote) + ProcToStringRaw(blocks, procList[names[i]], quote) + "\n"
  {
    assert names[..i + 1][..i] == names[..i];
  }

  /** The loop of `GetProcNameList`: the names that match, in their order. */
  method SelectMatching(names: seq<string>, matches: string -> bool) returns (nameList: seq<string>)
    ensures nameList == Matching(names, matches)
  {
    nameList := [];
    for i := 0 to |names|
      invariant nameList == Matching(names[..i], matches)
    {
      MatchingStep(names, i, matches);
      if matches(names[i]) {
        nameList := nameList + [names[i]];
      }
    }
    assert names[..|names|] == names;
  }

  /** One more name considered by `GetProcNameList`. */
  lemma MatchingStep(names: seq<string>, i: nat, matches: string -> bool)
    requires i < |names|
    ensures Matching(names[..i + 1], matches) == Matching(names[..i], matches) + if matches(names[i]) then [names[i]] else []
  {
    assert names[..i + 1][..i] == names[..i];
  }

  /** Names in strictly ascending order. */
  predicate Ascending(names: seq<string>) {
    forall i, j :: 0 <= i < j < |names| ==> LexLess(names[i], names[j])
  }

  /** Selecting from names in ascending order keeps them in ascending order. */
  lemma {:induction false} MatchingSorted(names: seq<string>, matches: string -> bool)
    requires Ascending(names)
    ensures Ascending(Matching(names, matches))
  {
    if names != [] {
      var init := names[..|names| - 1];
      var last := names[|names| - 1];
      MatchingSorted(init, matches);
      var r := Matching(names, matches);
      var q := Matching(init, matches);
      assert r == q + (if matches(last) then [last] else []);
      forall i, j | 0 <= i < j < |r|
        ensures LexLess(r[i], r[j])
      {
        if j == |q| {
          assert r[i] == q[i] && q[i] in q && r[j] == last;
          var k :| 0 <= k < |init| && init[k] == r[i];
          assert names[k] == r[i] && LexLess(names[k], names[|names| - 1]);
          assert LexLess(r[i], last);
        } else {
          assert r[i] == q[i] && r[j] == q[j];
        }
      }
    }
  }
}
