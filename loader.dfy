/**
 * What the recursive-descent loader of `Pipeline` computes, as functions of
 * the file's lines: `ReadLeftBracket`, `AppendCommandLineFromFile`,
 * `LoadBlock`, `LoadProc`, `LoadConf` and the main loop of `Load`. A line
 * number `n` is the `PipeFile` position: `n` lines have been read and the
 * current line is `lines[n - 1]`. The methods of `Pipelines.Pipeline` are
 * proved to compute exactly these functions; the lemmas here state what the
 * loader promises.
 */
module Loader {
  import opened Wrappers
  import opened Collaborators
  import opened Document

  // ---------------------------------------------------------------------------
  // ReadLeftBracket
  // ---------------------------------------------------------------------------

  /** Whether a bracket was found, the line it is on (or where the search stopped), and its kind. */
  datatype Bracketed = Bracketed(ok: bool, pos: nat, bracket: Bracket)

  /**
   * Skips empty lines and comment lines up to a `{` or `{{` line; an attribute
   * line, any other line, or the end of the file is an error.
   */
  function ReadLeftBracketSpec(env: Env, lines: seq<string>, n: nat): (r: Bracketed)
    requires 1 <= n <= |lines|
    ensures n <= r.pos <= |lines|
    decreases |lines| - n
  {
    var line := lines[n - 1];
    if env.isEmptyLine(line) || (env.isCommentLine(line) && !env.isDescLine(line)) then
      if n == |lines| then Bracketed(false, n, Single) else ReadLeftBracketSpec(env, lines, n + 1)
    else if env.isCommentLine(line) then Bracketed(false, n, Single)
    else if env.leftBracket(line).None? then Bracketed(false, n, Single)
    else Bracketed(true, n, env.leftBracket(line).value)
  }

  /**
   * A bracket is found exactly on a bracket line after nothing but empty and
   * plain comment lines, and the cursor stays on it.
   */
  lemma {:induction false} ReadLeftBracketFinds(env: Env, lines: seq<string>, n: nat)
    requires 1 <= n <= |lines|
    ensures var r := ReadLeftBracketSpec(env, lines, n);
      (r.ok ==>
         env.leftBracket(lines[r.pos - 1]) == Some(r.bracket)
         && !env.isEmptyLine(lines[r.pos - 1]) && !env.isCommentLine(lines[r.pos - 1]))
      && (forall i :: n - 1 <= i < r.pos - 1 ==> Skippable(env, lines[i]))
    decreases |lines| - n
  {
    var line := lines[n - 1];
    if (env.isEmptyLine(line) || (env.isCommentLine(line) && !env.isDescLine(line))) && n < |lines| {
      ReadLeftBracketFinds(env, lines, n + 1);
    }
  }

  /** A line `ReadLeftBracket` passes over. */
  predicate Skippable(env: Env, line: string) {
    env.isEmptyLine(line) || (env.isCommentLine(line) && !env.isDescLine(line))
  }

  // ---------------------------------------------------------------------------
  // AppendCommandLineFromFile
  // ---------------------------------------------------------------------------

  /** Where the gathering of a command stopped, whether it succeeded, and the command text. */
  datatype Gathered = Gathered(ok: bool, pos: nat, text: string)

  /**
   * The continuation rule: a text ending in a backslash loses it and runs on
   * into the next line; otherwise a line break separates the two.
   */
  function Join(text: string, next: string): string {
    if text != [] && text[|text| - 1] == '\\' then text[..|text| - 1] + next
    else text + "\n" + next
  }

  /** The command text starting with `text` at line `n`, taking in lines while the parser reports it unfinished. */
  function Gather(env: Env, lines: seq<string>, n: nat, text: string): (r: Gathered)
    requires 1 <= n <= |lines|
    ensures n <= r.pos <= |lines|
    decreases |lines| - n
  {
    match env.parse(text)
    case Parsed(_) => Gathered(true, n, text)
    case Malformed => Gathered(false, n, text)
    case Unfinished =>
      if n == |lines| then Gathered(false, n, text)
      else Gather(env, lines, n + 1, Join(text, env.trim(lines[n])))
  }

  /**
   * The gathered text is accepted exactly when the parser accepts it; an
   * unfinished text fails only at the end of the file.
   */
  lemma {:induction false} GatherOutcome(env: Env, lines: seq<string>, n: nat, text: string)
    requires 1 <= n <= |lines|
    ensures var r := Gather(env, lines, n, text);
      (r.ok <==> env.parse(r.text).Parsed?)
      && (env.parse(r.text).Unfinished? ==> !r.ok && r.pos == |lines|)
    decreases |lines| - n
  {
    if env.parse(text).Unfinished? && n < |lines| {
      GatherOutcome(env, lines, n + 1, Join(text, env.trim(lines[n])));
    }
  }

  /**
   * `AppendCommandLineFromFile`: an accepted, non-empty text is appended as
   * exactly one shell item (the item count grows, so the block changes);
   * otherwise the block is left as it is.
   */
  function AppendCommandSpec(env: Env, lines: seq<string>, n: nat, block: Block): (r: (Gathered, Block))
    requires 1 <= n <= |lines|
    ensures n <= r.0.pos <= |lines|
    ensures r.1.parallel == block.parallel
    ensures r.1 == block || (r.0.ok && r.0.text != "" && r.1.items == block.items + [ShellItem(r.0.text)])
    ensures r.0.ok && r.0.text != "" ==> |r.1.items| == |block.items| + 1
  {
    var g := Gather(env, lines, n, env.trim(lines[n - 1]));
    (g, if g.ok && g.text != "" then block.AppendCommand(g.text) else block)
  }

  // ---------------------------------------------------------------------------
  // LoadBlock
  // ---------------------------------------------------------------------------

  /** Whether a block was loaded, the line where loading stopped, the arena afterwards, and the block. */
  datatype Loaded = Loaded(ok: bool, pos: nat, blocks: seq<Block>, block: Block)

  /** The bracket that closes a block of the given kind. */
  function CloseKind(parallel: bool): Bracket {
    if parallel then Double else Single
  }

  /**
   * The loop of `LoadBlock` from line `n`, with `block` loaded so far: a right
   * bracket ends the block (an error when it is of the wrong kind), a left
   * bracket starts a nested block, and anything else is a command.
   */
  function LoadItems(env: Env, lines: seq<string>, n: nat, blocks: seq<Block>, block: Block): (r: Loaded)
    requires 1 <= n <= |lines|
    ensures n <= r.pos <= |lines|
    decreases |lines| - n, 1
  {
    var line := lines[n - 1];
    if env.rightBracket(line).Some? then
      Loaded(env.rightBracket(line).value == CloseKind(block.parallel), n, blocks, block)
    else if env.leftBracket(line).Some? then LoadNested(env, lines, n, blocks, block)
    else LoadCommand(env, lines, n, blocks, block)
  }

  /**
   * A left bracket at line `n`: the nested block is loaded from the next line,
   * appended to the arena and referred to from `block`; the file must go on
   * after its right bracket.
   */
  function LoadNested(env: Env, lines: seq<string>, n: nat, blocks: seq<Block>, block: Block): (r: Loaded)
    requires 1 <= n <= |lines| && env.leftBracket(lines[n - 1]).Some?
    ensures n <= r.pos <= |lines|
    decreases |lines| - n, 0
  {
    if n == |lines| then Loaded(false, n, blocks, block)
    else
      var sub := LoadItems(env, lines, n + 1, blocks, EmptyBlock(env.leftBracket(lines[n - 1]).value == Double));
      if !sub.ok then Loaded(false, sub.pos, sub.blocks, block)
      else
        var blocks' := sub.blocks + [sub.block];
        var block' := block.AppendBlock(|sub.blocks|);
        if sub.pos == |lines| then Loaded(false, sub.pos, blocks', block')
        else LoadItems(env, lines, sub.pos + 1, blocks', block')
  }

  /** A command at line `n`, possibly continued on the following lines; the file must go on after it. */
  function LoadCommand(env: Env, lines: seq<string>, n: nat, blocks: seq<Block>, block: Block): (r: Loaded)
    requires 1 <= n <= |lines|
    ensures n <= r.pos <= |lines|
    decreases |lines| - n, 0
  {
    var c := AppendCommandSpec(env, lines, n, block);
    if !c.0.ok then Loaded(false, c.0.pos, blocks, c.1)
    else if c.0.pos == |lines| then Loaded(false, c.0.pos, blocks, c.1)
    else LoadItems(env, lines, c.0.pos + 1, blocks, c.1)
  }

  /** One nested block, given what loading it from the next line gives. */
  lemma NestedStep(env: Env, lines: seq<string>, n: nat, blocks: seq<Block>, block: Block, sub: Loaded)
    requires 1 <= n < |lines| && env.leftBracket(lines[n - 1]).Some?
    requires sub == LoadItems(env, lines, n + 1, blocks, EmptyBlock(env.leftBracket(lines[n - 1]).value == Double))
    ensures !sub.ok ==> LoadNested(env, lines, n, blocks, block) == Loaded(false, sub.pos, sub.blocks, block)
    ensures sub.ok && sub.pos == |lines| ==>
      LoadNested(env, lines, n, blocks, block) == Loaded(false, sub.pos, sub.blocks + [sub.block], block.AppendBlock(|sub.blocks|))
    ensures sub.ok && sub.pos < |lines| ==>
      LoadNested(env, lines, n, blocks, block) == LoadItems(env, lines, sub.pos + 1, sub.blocks + [sub.block], block.AppendBlock(|sub.blocks|))
  {
  }

  /** One command, given what gathering it gives. */
  lemma CommandStep(env: Env, lines: seq<string>, n: nat, blocks: seq<Block>, block: Block, c: (Gathered, Block))
    requires 1 <= n <= |lines| && c == AppendCommandSpec(env, lines, n, block)
    ensures !c.0.ok || c.0.pos == |lines| ==> LoadCommand(env, lines, n, blocks, block) == Loaded(false, c.0.pos, blocks, c.1)
    ensures c.0.ok && c.0.pos < |lines| ==> LoadCommand(env, lines, n, blocks, block) == LoadItems(env, lines, c.0.pos + 1, blocks, c.1)
  {
  }

  /** `LoadBlock`: a new block of the given kind. */
  function LoadBlockSpec(env: Env, lines: seq<string>, n: nat, blocks: seq<Block>, parallel: bool): Loaded
    requires 1 <= n <= |lines|
  {
    LoadItems(env, lines, n, blocks, EmptyBlock(parallel))
  }

  /**
   * Loading only appends to the arena, leaving the blocks already there
   * unchanged, and the loaded block keeps its kind.
   */
  lemma {:induction false} LoadItemsExtends(env: Env, lines: seq<string>, n: nat, blocks: seq<Block>, block: Block)
    requires 1 <= n <= |lines|
    ensures var r := LoadItems(env, lines, n, blocks, block);
      |blocks| <= |r.blocks| && r.blocks[..|blocks|] == blocks && r.block.parallel == block.parallel
    decreases |lines| - n, 1
  {
    var line := lines[n - 1];
    if env.rightBracket(line).None? {
      if env.leftBracket(line).Some? {
        LoadNestedExtends(env, lines, n, blocks, block);
      } else {
        LoadCommandExtends(env, lines, n, blocks, block);
      }
    }
  }

  lemma {:induction false} LoadNestedExtends(env: Env, lines: seq<string>, n: nat, blocks: seq<Block>, block: Block)
    requires 1 <= n <= |lines| && env.leftBracket(lines[n - 1]).Some?
    ensures var r := LoadNested(env, lines, n, blocks, block);
      |blocks| <= |r.blocks| && r.blocks[..|blocks|] == blocks && r.block.parallel == block.parallel
    decreases |lines| - n, 0
  {
    if n < |lines| {
      var sub0 := EmptyBlock(env.leftBracket(lines[n - 1]).value == Double);
      LoadItemsExtends(env, lines, n + 1, blocks, sub0);
      var sub := LoadItems(env, lines, n + 1, blocks, sub0);
      if sub.ok {
        var blocks' := sub.blocks + [sub.block];
        assert blocks'[..|blocks|] == blocks by {
          assert blocks'[..|sub.blocks|] == sub.blocks;
        }
        if sub.pos < |lines| {
          LoadItemsExtends(env, lines, sub.pos + 1, blocks', block.AppendBlock(|sub.blocks|));
          var r := LoadItems(env, lines, sub.pos + 1, blocks', block.AppendBlock(|sub.blocks|));
          assert r.blocks[..|blocks|] == blocks by {
            assert r.blocks[..|blocks'|][..|blocks|] == r.blocks[..|blocks|];
          }
        }
      }
    }
  }

  lemma {:induction false} LoadCommandExtends(env: Env, lines: seq<string>, n: nat, blocks: seq<Block>, block: Block)
    requires 1 <= n <= |lines|
    ensures var r := LoadCommand(env, lines, n, blocks, block);
      |blocks| <= |r.blocks| && r.blocks[..|blocks|] == blocks && r.block.parallel == block.parallel
    decreases |lines| - n, 0
  {
    var c := AppendCommandSpec(env, lines, n, block);
    if c.0.ok && c.0.pos < |lines| {
      var m, b := c.0.pos + 1, c.1;
      assert b.parallel == block.parallel;
      LoadItemsExtends(env, lines, m, blocks, b);
      assert LoadCommand(env, lines, n, blocks, block) == LoadItems(env, lines, m, blocks, b);
    }
  }

  /**
   * Loading keeps the arena well formed, and the loaded block refers only to
   * blocks of the arena other than block 0, so it can be appended to it.
   */
  lemma {:induction false} LoadItemsWellFormed(env: Env, lines: seq<string>, n: nat, blocks: seq<Block>, block: Block)
    requires 1 <= n <= |lines|
    requires WellFormed(blocks) && ItemsOk(block.items, |blocks|, |blocks|)
    ensures var r := LoadItems(env, lines, n, blocks, block);
      WellFormed(r.blocks) && ItemsOk(r.block.items, |r.blocks|, |r.blocks|)
    decreases |lines| - n, 1
  {
    var line := lines[n - 1];
    if env.rightBracket(line).None? {
      if env.leftBracket(line).Some? {
        LoadNestedWellFormed(env, lines, n, blocks, block);
      } else {
        LoadCommandWellFormed(env, lines, n, blocks, block);
      }
    }
  }

  lemma {:induction false} LoadNestedWellFormed(env: Env, lines: seq<string>, n: nat, blocks: seq<Block>, block: Block)
    requires 1 <= n <= |lines| && env.leftBracket(lines[n - 1]).Some?
    requires WellFormed(blocks) && ItemsOk(block.items, |blocks|, |blocks|)
    ensures var r := LoadNested(env, lines, n, blocks, block);
      WellFormed(r.blocks) && ItemsOk(r.block.items, |r.blocks|, |r.blocks|)
    decreases |lines| - n, 0
  {
    if n < |lines| {
      var sub0 := EmptyBlock(env.leftBracket(lines[n - 1]).value == Double);
      LoadItemsWellFormed(env, lines, n + 1, blocks, sub0);
      LoadItemsExtends(env, lines, n + 1, blocks, sub0);
      var sub := LoadItems(env, lines, n + 1, blocks, sub0);
      if sub.ok {
        var blocks' := AppendToArena(sub.blocks, sub.block);
        var block' := block.AppendBlock(|sub.blocks|);
        ItemsOkGrow(block.items, |blocks|, |blocks|, |blocks'|);
        assert ItemsOk(block'.items, |blocks'|, |blocks'|);
        if sub.pos < |lines| {
          LoadItemsWellFormed(env, lines, sub.pos + 1, blocks', block');
        }
      }
    }
  }

  lemma {:induction false} LoadCommandWellFormed(env: Env, lines: seq<string>, n: nat, blocks: seq<Block>, block: Block)
    requires 1 <= n <= |lines|
    requires WellFormed(blocks) && ItemsOk(block.items, |blocks|, |blocks|)
    ensures var r := LoadCommand(env, lines, n, blocks, block);
      WellFormed(r.blocks) && ItemsOk(r.block.items, |r.blocks|, |r.blocks|)
    decreases |lines| - n, 0
  {
    var c := AppendCommandSpec(env, lines, n, block);
    assert ItemsOk(c.1.items, |blocks|, |blocks|);
    if c.0.ok && c.0.pos < |lines| {
      var m, b := c.0.pos + 1, c.1;
      LoadItemsWellFormed(env, lines, m, blocks, b);
      assert LoadCommand(env, lines, n, blocks, block) == LoadItems(env, lines, m, blocks, b);
    }
  }

  /** A block is loaded only up to a right bracket of its own kind, on the line where loading stopped. */
  lemma {:induction false} LoadItemsCloses(env: Env, lines: seq<string>, n: nat, blocks: seq<Block>, block: Block)
    requires 1 <= n <= |lines|
    ensures var r := LoadItems(env, lines, n, blocks, block);
      r.ok ==> env.rightBracket(lines[r.pos - 1]) == Some(CloseKind(block.parallel))
    decreases |lines| - n, 1
  {
    var line := lines[n - 1];
    if env.rightBracket(line).None? {
      if env.leftBracket(line).Some? {
        LoadNestedCloses(env, lines, n, blocks, block);
      } else {
        LoadCommandCloses(env, lines, n, blocks, block);
      }
    }
  }

  lemma {:induction false} LoadNestedCloses(env: Env, lines: seq<string>, n: nat, blocks: seq<Block>, block: Block)
    requires 1 <= n <= |lines| && env.leftBracket(lines[n - 1]).Some?
    ensures var r := LoadNested(env, lines, n, blocks, block);
      r.ok ==> env.rightBracket(lines[r.pos - 1]) == Some(CloseKind(block.parallel))
    decreases |lines| - n, 0
  {
    if n < |lines| {
      var sub := LoadItems(env, lines, n + 1, blocks, EmptyBlock(env.leftBracket(lines[n - 1]).value == Double));
      if sub.ok && sub.pos < |lines| {
        LoadItemsCloses(env, lines, sub.pos + 1, sub.blocks + [sub.block], block.AppendBlock(|sub.blocks|));
      }
    }
  }

  lemma {:induction false} LoadCommandCloses(env: Env, lines: seq<string>, n: nat, blocks: seq<Block>, block: Block)
    requires 1 <= n <= |lines|
    ensures var r := LoadCommand(env, lines, n, blocks, block);
      r.ok ==> env.rightBracket(lines[r.pos - 1]) == Some(CloseKind(block.parallel))
    decreases |lines| - n, 0
  {
    var c := AppendCommandSpec(env, lines, n, block);
    if c.0.ok && c.0.pos < |lines| {
      var m, b := c.0.pos + 1, c.1;
      assert b.parallel == block.parallel;
      LoadItemsCloses(env, lines, m, blocks, b);
      assert LoadCommand(env, lines, n, blocks, block) == LoadItems(env, lines, m, blocks, b);
    }
  }

  /** A right bracket of the wrong kind fails the block on that very line; the right kind closes it there. */
  lemma RightBracketOutcome(env: Env, lines: seq<string>, n: nat, blocks: seq<Block>, block: Block)
    requires 1 <= n <= |lines| && env.rightBracket(lines[n - 1]).Some?
    ensures var r := LoadItems(env, lines, n, blocks, block);
      r.pos == n && r.blocks == blocks && r.block == block
      && (r.ok <==> env.rightBracket(lines[n - 1]).value == CloseKind(block.parallel))
  {
  }

  // ---------------------------------------------------------------------------
  // LoadProc
  // ---------------------------------------------------------------------------

  /** The outcome of loading a procedure body. */
  datatype ProcLoaded = ProcLoaded(ok: bool, pos: nat, blocks: seq<Block>, procList: map<string, Procedure>)

  /** Loads the body block from line `n` and registers it as procedure `name`. */
  function LoadBody(env: Env, lines: seq<string>, n: nat, blocks: seq<Block>, procList: map<string, Procedure>,
                    name: string, bracket: Bracket): (r: ProcLoaded)
    requires 1 <= n <= |lines|
    ensures n <= r.pos <= |lines|
  {
    var l := LoadBlockSpec(env, lines, n, blocks, bracket == Double);
    if !l.ok then ProcLoaded(false, l.pos, l.blocks, procList)
    else ProcLoaded(true, l.pos, l.blocks + [l.block], procList[name := Procedure(name, |l.blocks|)])
  }

  /**
   * `LoadProc` as written: with no bracket on the header line, it reads one
   * more line before looking for the bracket, and then loads the body from
   * the bracket line itself. The model uses `LoadProcSpec` instead.
   */
  function LoadProcAsWritten(env: Env, lines: seq<string>, n: nat, blocks: seq<Block>, procList: map<string, Procedure>,
                             name: string, bracket: Option<Bracket>): (r: ProcLoaded)
    requires 1 <= n <= |lines|
    ensures n <= r.pos <= |lines|
  {
    if bracket.Some? then LoadBody(env, lines, n, blocks, procList, name, bracket.value)
    else if n == |lines| then ProcLoaded(false, n, blocks, procList)
    else
      var b := ReadLeftBracketSpec(env, lines, n + 1);
      if !b.ok then ProcLoaded(false, b.pos, blocks, procList)
      else LoadBody(env, lines, b.pos, blocks, procList, name, b.bracket)
  }

  /**
   * `LoadProc` as evidently intended, which the model uses: the bracket is
   * looked for from the line after the header, and the body starts on the
   * line after the bracket.
   */
  function LoadProcSpec(env: Env, lines: seq<string>, n: nat, blocks: seq<Block>, procList: map<string, Procedure>,
                        name: string, bracket: Option<Bracket>): (r: ProcLoaded)
    requires 1 <= n <= |lines|
    ensures n <= r.pos <= |lines|
  {
    if bracket.Some? then LoadBody(env, lines, n, blocks, procList, name, bracket.value)
    else
      var b := ReadLeftBracketSpec(env, lines, n);
      if !b.ok then ProcLoaded(false, b.pos, blocks, procList)
      else if b.pos == |lines| then ProcLoaded(false, b.pos, blocks, procList)
      else LoadBody(env, lines, b.pos + 1, blocks, procList, name, b.bracket)
  }

  /** `LoadProc` only appends to the arena: the blocks already there are unchanged. */
  lemma LoadProcExtends(env: Env, lines: seq<string>, n: nat, blocks: seq<Block>, procList: map<string, Procedure>,
                        name: string, bracket: Option<Bracket>)
    requires 1 <= n <= |lines|
    ensures var r := LoadProcSpec(env, lines, n, blocks, procList, name, bracket);
      |blocks| <= |r.blocks| && r.blocks[..|blocks|] == blocks
  {
    var f := ReadLeftBracketSpec(env, lines, n);
    if bracket.Some? || (f.ok && f.pos < |lines|) {
      var start := if bracket.Some? then n else f.pos + 1;
      var b := if bracket.Some? then bracket.value else f.bracket;
      LoadItemsExtends(env, lines, start, blocks, EmptyBlock(b == Double));
      var l := LoadBlockSpec(env, lines, start, blocks, b == Double);
      assert (l.blocks + [l.block])[..|blocks|] == l.blocks[..|blocks|];
    }
  }

  /**
   * In the intended loader a bracket on a line of its own, after empty and
   * comment lines, gives the same procedure as that bracket at the end of the
   * header.
   */
  lemma {:induction false} IntendedBracketOnOwnLine(env: Env, lines: seq<string>, n: nat, m: nat, blocks: seq<Block>,
                                                   procList: map<string, Procedure>, name: string, b: Bracket)
    requires 1 <= n <= m < |lines|
    requires forall i :: n - 1 <= i < m - 1 ==> Skippable(env, lines[i])
    requires !Skippable(env, lines[m - 1]) && !env.isCommentLine(lines[m - 1])
    requires env.leftBracket(lines[m - 1]) == Some(b)
    ensures LoadProcSpec(env, lines, n, blocks, procList, name, None)
      == LoadProcSpec(env, lines, m + 1, blocks, procList, name, Some(b))
  {
    BracketAfterSkippable(env, lines, n, m);
  }

  lemma {:induction false} BracketAfterSkippable(env: Env, lines: seq<string>, n: nat, m: nat)
    requires 1 <= n <= m <= |lines|
    requires forall i :: n - 1 <= i < m - 1 ==> Skippable(env, lines[i])
    requires !Skippable(env, lines[m - 1]) && !env.isCommentLine(lines[m - 1])
    requires env.leftBracket(lines[m - 1]).Some?
    ensures ReadLeftBracketSpec(env, lines, n) == Bracketed(true, m, env.leftBracket(lines[m - 1]).value)
    decreases m - n
  {
    if n < m {
      BracketAfterSkippable(env, lines, n + 1, m);
    }
  }

  /** A procedure body keeps the arena and the procedure table well formed, and registers the procedure on success. */
  lemma LoadBodyWellFormed(env: Env, lines: seq<string>, n: nat, blocks: seq<Block>, procList: map<string, Procedure>,
                           name: string, b: Bracket)
    requires 1 <= n <= |lines| && WellFormed(blocks) && ProcsOk(procList, |blocks|)
    ensures var r := LoadBody(env, lines, n, blocks, procList, name, b);
      WellFormed(r.blocks) && ProcsOk(r.procList, |r.blocks|) && |blocks| <= |r.blocks|
      && r.procList.Keys <= procList.Keys + {name}
      && (r.ok ==> name in r.procList && r.procList[name].blockIndex == |r.blocks| - 1)
  {
    LoadItemsWellFormed(env, lines, n, blocks, EmptyBlock(b == Double));
    LoadItemsExtends(env, lines, n, blocks, EmptyBlock(b == Double));
    var l := LoadBlockSpec(env, lines, n, blocks, b == Double);
    if l.ok {
      var blocks' := AppendToArena(l.blocks, l.block);
      assert ProcsOk(procList, |blocks'|);
    }
  }

  /** `LoadProc` keeps the arena and the procedure table well formed, and registers the procedure on success. */
  lemma LoadProcWellFormed(env: Env, lines: seq<string>, n: nat, blocks: seq<Block>, procList: map<string, Procedure>,
                           name: string, bracket: Option<Bracket>)
    requires 1 <= n <= |lines| && WellFormed(blocks) && ProcsOk(procList, |blocks|)
    ensures var r := LoadProcSpec(env, lines, n, blocks, procList, name, bracket);
      WellFormed(r.blocks) && ProcsOk(r.procList, |r.blocks|) && |blocks| <= |r.blocks|
      && r.procList.Keys <= procList.Keys + {name}
      && (r.ok ==> name in r.procList && r.procList[name].blockIndex == |r.blocks| - 1)
  {
    if bracket.Some? {
      LoadBodyWellFormed(env, lines, n, blocks, procList, name, bracket.value);
    } else {
      var b := ReadLeftBracketSpec(env, lines, n);
      if b.ok && b.pos < |lines| {
        LoadBodyWellFormed(env, lines, b.pos + 1, blocks, procList, name, b.bracket);
      }
    }
  }

  // ---------------------------------------------------------------------------
  // LoadConf
  // ---------------------------------------------------------------------------

  /**
   * The lines of a configuration file from the first one on: a variable line
   * sets the variable, an empty or comment line is skipped, and any other
   * line is an error that stops the file.
   */
  function ConfLines(env: Env, lines: seq<string>, confMap: map<string, string>): (bool, map<string, string>) {
    if lines == [] then (true, confMap)
    else
      var line := lines[0];
      if env.varLine(line).Some? then
        ConfLines(env, lines[1..], confMap[env.varLine(line).value.0 := env.varLine(line).value.1])
      else if !env.isEmptyLine(line) && !env.isCommentLine(line) then (false, confMap)
      else ConfLines(env, lines[1..], confMap)
  }

  /** `LoadConf`: a file that cannot be opened is an error. */
  function LoadConfSpec(env: Env, filename: string, confMap: map<string, string>): (bool, map<string, string>) {
    match env.readLines(filename)
    case None => (false, confMap)
    case Some(lines) => ConfLines(env, lines, confMap)
  }

  /** A configuration line that is accepted. */
  predicate ConfLineOk(env: Env, line: string) {
    env.varLine(line).Some? || env.isEmptyLine(line) || env.isCommentLine(line)
  }

  /** The value the last variable line of `lines` gives `name`, or `dflt` when none does. */
  function LastValue(env: Env, lines: seq<string>, name: string, dflt: Option<string>): Option<string> {
    if lines == [] then dflt
    else
      var last := lines[|lines| - 1];
      if env.varLine(last).Some? && env.varLine(last).value.0 == name then Some(env.varLine(last).value.1)
      else LastValue(env, lines[..|lines| - 1], name, dflt)
  }

  /** A configuration file is accepted exactly when every line is a variable, empty or comment line. */
  lemma {:induction false} ConfLinesOk(env: Env, lines: seq<string>, confMap: map<string, string>)
    ensures ConfLines(env, lines, confMap).0 <==> forall i :: 0 <= i < |lines| ==> ConfLineOk(env, lines[i])
    decreases |lines|
  {
    if lines != [] {
      var line := lines[0];
      var next := if env.varLine(line).Some? then confMap[env.varLine(line).value.0 := env.varLine(line).value.1] else confMap;
      ConfLinesOk(env, lines[1..], next);
      assert forall i :: 1 <= i < |lines| ==> lines[i] == lines[1..][i - 1];
    }
  }

  /** After an accepted file, each variable has the value of its last definition: the last write wins. */
  lemma {:induction false} ConfLastWriteWins(env: Env, lines: seq<string>, confMap: map<string, string>, name: string)
    requires ConfLines(env, lines, confMap).0
    ensures var m := ConfLines(env, lines, confMap).1;
      (if name in m then Some(m[name]) else None)
      == LastValue(env, lines, name, if name in confMap then Some(confMap[name]) else None)
    decreases |lines|
  {
    if lines != [] {
      var line := lines[0];
      var next := if env.varLine(line).Some? then confMap[env.varLine(line).value.0 := env.varLine(line).value.1] else confMap;
      ConfLastWriteWins(env, lines[1..], next, name);
      LastValueCons(env, lines, name, if name in confMap then Some(confMap[name]) else None);
    }
  }

  /** `LastValue` read from the front: the first line sets the default for the rest. */
  lemma {:induction false} LastValueCons(env: Env, lines: seq<string>, name: string, dflt: Option<string>)
    requires lines != []
    ensures LastValue(env, lines, name, dflt)
      == LastValue(env, lines[1..], name,
           if env.varLine(lines[0]).Some? && env.varLine(lines[0]).value.0 == name then Some(env.varLine(lines[0]).value.1) else dflt)
    decreases |lines|
  {
    if |lines| > 1 {
      var init := lines[..|lines| - 1];
      assert init[1..] == lines[1..][..|lines[1..]| - 1];
      assert init[0] == lines[0];
      LastValueCons(env, init, name, dflt);
    }
  }

  // ---------------------------------------------------------------------------
  // Load
  // ---------------------------------------------------------------------------

  /** Everything `Load` changes: the arena, the procedures, their declaration lines, and the variables. */
  datatype LoadState = LoadState(
    blocks: seq<Block>,
    procList: map<string, Procedure>,
    procAtLineNo: map<string, nat>,
    confMap: map<string, string>)

  /** Whether loading succeeded, the line where it stopped, and the state afterwards. */
  datatype Outcome = Outcome(ok: bool, pos: nat, state: LoadState)

  /** The main loop of `Load` from line `n`: the first kind of line that matches decides. */
  function LoadLines(env: Env, dir: string, lines: seq<string>, n: nat, st: LoadState): (r: Outcome)
    requires 1 <= n <= |lines| && |st.blocks| >= 1
    decreases |lines| - n, 2
  {
    var line := lines[n - 1];
    if env.incLine(line).Some? then LoadInclude(env, dir, lines, n, st)
    else if env.funcLine(line).Some? then LoadFunc(env, dir, lines, n, st)
    else if env.leftBracket(line).Some? then LoadTopBlock(env, dir, lines, n, st)
    else if env.isEmptyLine(line) || env.isCommentLine(line) then Next(env, dir, lines, n, st)
    else if env.varLine(line).Some? then
      Next(env, dir, lines, n, st.(confMap := st.confMap[env.varLine(line).value.0 := env.varLine(line).value.1]))
    else LoadShell(env, dir, lines, n, st)
  }

  /** An include line: the named file, relative to the directory of the pipeline file, is read as a configuration file. */
  function LoadInclude(env: Env, dir: string, lines: seq<string>, n: nat, st: LoadState): (r: Outcome)
    requires 1 <= n <= |lines| && |st.blocks| >= 1 && env.incLine(lines[n - 1]).Some?
    decreases |lines| - n, 1
  {
    var c := LoadConfSpec(env, dir + "/" + env.incLine(lines[n - 1]).value, st.confMap);
    if !c.0 then Outcome(false, n, st.(confMap := c.1))
    else Next(env, dir, lines, n, st.(confMap := c.1))
  }

  /**
   * A procedure header: a name declared before is an error; otherwise its
   * line is recorded and the body is loaded from the next line.
   */
  function LoadFunc(env: Env, dir: string, lines: seq<string>, n: nat, st: LoadState): (r: Outcome)
    requires 1 <= n <= |lines| && |st.blocks| >= 1 && env.funcLine(lines[n - 1]).Some?
    decreases |lines| - n, 1
  {
    var name := env.funcLine(lines[n - 1]).value.0;
    if name in st.procAtLineNo then Outcome(false, n, st)
    else
      var st1 := st.(procAtLineNo := st.procAtLineNo[name := n]);
      if n == |lines| then Outcome(false, n, st1)
      else
        var p := LoadProcSpec(env, lines, n + 1, st.blocks, st.procList, name, env.funcLine(lines[n - 1]).value.1);
        var st2 := st1.(blocks := p.blocks, procList := p.procList);
        if !p.ok then Outcome(false, p.pos, st2) else Next(env, dir, lines, p.pos, st2)
  }

  /** `LoadFunc` on a new name whose body starts on the next line. */
  lemma LoadFuncBody(env: Env, dir: string, lines: seq<string>, n: nat, st: LoadState)
    requires 1 <= n < |lines| && |st.blocks| >= 1 && env.funcLine(lines[n - 1]).Some?
    requires env.funcLine(lines[n - 1]).value.0 !in st.procAtLineNo
    ensures var h := env.funcLine(lines[n - 1]).value;
      var p := LoadProcSpec(env, lines, n + 1, st.blocks, st.procList, h.0, h.1);
      var st2 := st.(procAtLineNo := st.procAtLineNo[h.0 := n], blocks := p.blocks, procList := p.procList);
      LoadFunc(env, dir, lines, n, st) == if p.ok then Next(env, dir, lines, p.pos, st2) else Outcome(false, p.pos, st2)
  {
  }

  /** A block outside any procedure: it is loaded, appended to the arena, and referred to from block 0. */
  function LoadTopBlock(env: Env, dir: string, lines: seq<string>, n: nat, st: LoadState): (r: Outcome)
    requires 1 <= n <= |lines| && |st.blocks| >= 1 && env.leftBracket(lines[n - 1]).Some?
    decreases |lines| - n, 1
  {
    if n == |lines| then Outcome(false, n, st)
    else
      var l := LoadBlockSpec(env, lines, n + 1, st.blocks, env.leftBracket(lines[n - 1]).value == Double);
      if !l.ok then Outcome(false, l.pos, st.(blocks := l.blocks))
      else
        var blocks := l.blocks + [l.block];
        Next(env, dir, lines, l.pos, st.(blocks := blocks[0 := blocks[0].AppendBlock(|l.blocks|)]))
  }

  /** Any other line is a command of block 0. */
  function LoadShell(env: Env, dir: string, lines: seq<string>, n: nat, st: LoadState): (r: Outcome)
    requires 1 <= n <= |lines| && |st.blocks| >= 1
    decreases |lines| - n, 1
  {
    var c := AppendCommandSpec(env, lines, n, st.blocks[0]);
    var st' := st.(blocks := st.blocks[0 := c.1]);
    if !c.0.ok then Outcome(false, c.0.pos, st') else Next(env, dir, lines, c.0.pos, st')
  }

  /** After a line is handled at `m`: the end of the file ends loading successfully, otherwise the next line follows. */
  function Next(env: Env, dir: string, lines: seq<string>, m: nat, st: LoadState): (r: Outcome)
    requires 1 <= m <= |lines| && |st.blocks| >= 1
    decreases |lines| - m, 0
  {
    if m == |lines| then Outcome(true, m, st) else LoadLines(env, dir, lines, m + 1, st)
  }

  /**
   * `Load`: a file that cannot be opened is an error; an empty file loads
   * nothing; after the lines, the sibling `.conf` file is read when it exists.
   */
  function LoadSpec(env: Env, filename: string, st: LoadState): (r: (bool, LoadState))
    requires |st.blocks| >= 1
  {
    match env.readLines(filename)
    case None => (false, st)
    case Some(lines) =>
      var o := if lines == [] then Outcome(true, 0, st) else LoadLines(env, env.dirName(filename), lines, 1, st);
      if !o.ok then (false, o.state)
      else if env.fileExists(filename + ".conf") then
        var c := LoadConfSpec(env, filename + ".conf", o.state.confMap);
        (c.0, o.state.(confMap := c.1))
      else (true, o.state)
  }

  /** The state `Load` keeps consistent. */
  predicate StateOk(st: LoadState) {
    WellFormed(st.blocks) && ProcsOk(st.procList, |st.blocks|) && st.procList.Keys <= st.procAtLineNo.Keys
  }

  /** What every step of `Load` keeps: a consistent state, a growing arena, and each recorded declaration line. */
  predicate Keeps(st: LoadState, r: LoadState) {
    StateOk(r) && |st.blocks| <= |r.blocks|
    && forall name :: name in st.procAtLineNo ==> name in r.procAtLineNo && r.procAtLineNo[name] == st.procAtLineNo[name]
  }

  /**
   * Loading keeps the state consistent, only grows the arena, and never
   * forgets or moves a recorded declaration line, which is what makes a
   * second declaration of a name an error.
   */
  lemma {:induction false} LoadLinesPreserves(env: Env, dir: string, lines: seq<string>, n: nat, st: LoadState)
    requires 1 <= n <= |lines| && StateOk(st)
    ensures Keeps(st, LoadLines(env, dir, lines, n, st).state)
    decreases |lines| - n, 2
  {
    var line := lines[n - 1];
    if env.incLine(line).Some? {
      var c := LoadConfSpec(env, dir + "/" + env.incLine(line).value, st.confMap);
      if c.0 {
        NextPreserves(env, dir, lines, n, st.(confMap := c.1));
      }
    } else if env.funcLine(line).Some? {
      LoadFuncPreserves(env, dir, lines, n, st);
    } else if env.leftBracket(line).Some? {
      LoadTopBlockPreserves(env, dir, lines, n, st);
    } else if env.isEmptyLine(line) || env.isCommentLine(line) {
      NextPreserves(env, dir, lines, n, st);
    } else if env.varLine(line).Some? {
      NextPreserves(env, dir, lines, n, st.(confMap := st.confMap[env.varLine(line).value.0 := env.varLine(line).value.1]));
    } else {
      var c := AppendCommandSpec(env, lines, n, st.blocks[0]);
      DefaultBlockUpdate(st.blocks, c.1);
      if c.0.ok {
        NextPreserves(env, dir, lines, c.0.pos, st.(blocks := st.blocks[0 := c.1]));
      }
    }
  }

  lemma {:induction false} LoadFuncPreserves(env: Env, dir: string, lines: seq<string>, n: nat, st: LoadState)
    requires 1 <= n <= |lines| && StateOk(st) && env.funcLine(lines[n - 1]).Some?
    ensures Keeps(st, LoadFunc(env, dir, lines, n, st).state)
    decreases |lines| - n, 1
  {
    var name := env.funcLine(lines[n - 1]).value.0;
    if name !in st.procAtLineNo {
      var st1 := st.(procAtLineNo := st.procAtLineNo[name := n]);
      if n < |lines| {
        LoadProcWellFormed(env, lines, n + 1, st.blocks, st.procList, name, env.funcLine(lines[n - 1]).value.1);
        var p := LoadProcSpec(env, lines, n + 1, st.blocks, st.procList, name, env.funcLine(lines[n - 1]).value.1);
        var st2 := st1.(blocks := p.blocks, procList := p.procList);
        assert StateOk(st2);
        if p.ok {
          NextPreserves(env, dir, lines, p.pos, st2);
        }
      }
    }
  }

  lemma {:induction false} LoadTopBlockPreserves(env: Env, dir: string, lines: seq<string>, n: nat, st: LoadState)
    requires 1 <= n <= |lines| && StateOk(st) && env.leftBracket(lines[n - 1]).Some?
    ensures Keeps(st, LoadTopBlock(env, dir, lines, n, st).state)
    decreases |lines| - n, 1
  {
    if n < |lines| {
      var b := env.leftBracket(lines[n - 1]).value == Double;
      LoadItemsWellFormed(env, lines, n + 1, st.blocks, EmptyBlock(b));
      LoadItemsExtends(env, lines, n + 1, st.blocks, EmptyBlock(b));
      var l := LoadBlockSpec(env, lines, n + 1, st.blocks, b);
      ProcsOkGrow(st.procList, |st.blocks|, |l.blocks|);
      if l.ok {
        var blocks := AppendToArena(l.blocks, l.block);
        var blocks' := blocks[0 := blocks[0].AppendBlock(|l.blocks|)];
        DefaultBlockUpdate(blocks, blocks[0].AppendBlock(|l.blocks|));
        ProcsOkGrow(st.procList, |l.blocks|, |blocks'|);
        NextPreserves(env, dir, lines, l.pos, st.(blocks := blocks'));
      }
    }
  }

  lemma {:induction false} NextPreserves(env: Env, dir: string, lines: seq<string>, m: nat, st: LoadState)
    requires 1 <= m <= |lines| && StateOk(st)
    ensures Keeps(st, Next(env, dir, lines, m, st).state)
    decreases |lines| - m, 0
  {
    if m < |lines| {
      LoadLinesPreserves(env, dir, lines, m + 1, st);
    }
  }

  lemma ProcsOkGrow(procList: map<string, Procedure>, n: nat, m: nat)
    requires ProcsOk(procList, n) && n <= m
    ensures ProcsOk(procList, m)
  {
  }

  /** Replacing block 0 by a block whose references are valid keeps the arena well formed. */
  lemma DefaultBlockUpdate(blocks: seq<Block>, b: Block)
    requires WellFormed(blocks) && ItemsOk(b.items, 0, |blocks|)
    ensures WellFormed(blocks[0 := b])
  {
    assert forall k :: 1 <= k < |blocks| ==> blocks[0 := b][k] == blocks[k];
  }

  /** A second declaration of a procedure name fails `Load` on its header line. */
  lemma DuplicateProcedureFails(env: Env, dir: string, lines: seq<string>, n: nat, st: LoadState)
    requires 1 <= n <= |lines| && |st.blocks| >= 1
    requires env.incLine(lines[n - 1]).None? && env.funcLine(lines[n - 1]).Some?
    requires env.funcLine(lines[n - 1]).value.0 in st.procAtLineNo
    ensures LoadLines(env, dir, lines, n, st) == Outcome(false, n, st)
  {
  }

  /** A first declaration records its header line before the body is loaded. */
  lemma RecordsDeclaration(env: Env, dir: string, lines: seq<string>, n: nat, st: LoadState)
    requires 1 <= n < |lines| && StateOk(st)
    requires env.incLine(lines[n - 1]).None? && env.funcLine(lines[n - 1]).Some?
    requires env.funcLine(lines[n - 1]).value.0 !in st.procAtLineNo
    ensures var r := LoadLines(env, dir, lines, n, st).state;
      var name := env.funcLine(lines[n - 1]).value.0;
      name in r.procAtLineNo && r.procAtLineNo[name] == n
  {
    var name := env.funcLine(lines[n - 1]).value.0;
    var st1 := st.(procAtLineNo := st.procAtLineNo[name := n]);
    var p := LoadProcSpec(env, lines, n + 1, st.blocks, st.procList, name, env.funcLine(lines[n - 1]).value.1);
    LoadProcWellFormed(env, lines, n + 1, st.blocks, st.procList, name, env.funcLine(lines[n - 1]).value.1);
    var st2 := st1.(blocks := p.blocks, procList := p.procList);
    assert StateOk(st2);
    if p.ok {
      NextPreserves(env, dir, lines, p.pos, st2);
    }
  }

  // ---------------------------------------------------------------------------
  // A procedure whose bracket is on its own line
  // ---------------------------------------------------------------------------

  /**
   * Concrete collaborators: `{` and `}` are brackets, `foo()` is a procedure
   * header without a bracket, `#...` is a comment, and any other text parses
   * as a single one-word command.
   */
  function SampleEnv(): Env {
    Env(
      l => l == "",
      l => |l| > 0 && l[0] == '#',
      l => false,
      l => if l == "{" then Some(Single) else if l == "{{" then Some(Double) else None,
      l => if l == "}" then Some(Single) else if l == "}}" then Some(Double) else None,
      l => if l == "foo()" then Some(("foo", None)) else None,
      l => None,
      l => None,
      l => Parsed([[l]]),
      l => l,
      l => l,
      f => None,
      f => false,
      f => f)
  }

  /** The pipeline `foo()`, `{`, `echo`, `}`. */
  function OwnLineBracket(): seq<string> {
    ["foo()", "{", "echo", "}"]
  }

  /** The state `Load` starts from. */
  function Start(): LoadState {
    LoadState([EmptyBlock(false)], map[], map[], map[])
  }

  /**
   * As written, the procedure of `OwnLineBracket` is rejected: the body's
   * bracket line is skipped and the search for a bracket stops at `echo`.
   */
  lemma OwnLineBracketRejected()
    ensures LoadProcAsWritten(SampleEnv(), OwnLineBracket(), 2, Start().blocks, map[], "foo", None)
      == ProcLoaded(false, 3, Start().blocks, map[])
  {
    var env, lines := SampleEnv(), OwnLineBracket();
    assert env.funcLine(lines[0]) == Some(("foo", None));
    assert ReadLeftBracketSpec(env, lines, 3) == Bracketed(false, 3, Single);
  }

  /** As intended, the same pipeline declares `foo` with the body `echo`, and the whole file loads. */
  lemma OwnLineBracketIntended()
    ensures LoadProcSpec(SampleEnv(), OwnLineBracket(), 2, Start().blocks, map[], "foo", None)
      == ProcLoaded(true, 4, Start().blocks + [Block([ShellItem("echo")], false)], map["foo" := Procedure("foo", 1)])
    ensures LoadLines(SampleEnv(), ".", OwnLineBracket(), 1, Start()).ok
  {
    var env, lines := SampleEnv(), OwnLineBracket();
    assert ReadLeftBracketSpec(env, lines, 2) == Bracketed(true, 2, Single);
    assert Gather(env, lines, 3, "echo") == Gathered(true, 3, "echo");
    assert LoadItems(env, lines, 4, Start().blocks, EmptyBlock(false).AppendCommand("echo"))
      == Loaded(true, 4, Start().blocks, Block([ShellItem("echo")], false));
    assert env.incLine(lines[0]).None? && env.funcLine(lines[0]) == Some(("foo", None));
    assert LoadLines(env, ".", lines, 1, Start()) == LoadFunc(env, ".", lines, 1, Start());
  }
}
