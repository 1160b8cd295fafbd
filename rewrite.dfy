/**
 * The post-load rewrite: `CommandItem::TryConvertShellToProc`, which turns a
 * shell item whose first word names a known procedure into a call with
 * `key=value` arguments, and `Block::UpdateCommandToProcCalling`, which does
 * that to every item of a block and stops at the first failure.
 */
module Rewrite {
  import opened Wrappers
  import opened Collaborators
  import opened Document
  import opened StringUtils

  // ---------------------------------------------------------------------------
  // The argument pattern (\w+)=(.*)
  // ---------------------------------------------------------------------------

  /** `\w`: a letter, a digit or the underscore. */
  predicate IsWordChar(c: char) {
    ('A' <= c <= 'Z') || ('a' <= c <= 'z') || ('0' <= c <= '9') || c == '_'
  }

  predicate AllWordChars(s: string) {
    forall k :: 0 <= k < |s| ==> IsWordChar(s[k])
  }

  /** `.` matches anything but a line terminator. */
  predicate NoLineBreak(s: string) {
    forall k :: 0 <= k < |s| ==> s[k] != '\n' && s[k] != '\r'
  }

  /** The length of the run of word characters at the start of `s`. */
  function WordPrefix(s: string): (n: nat)
    ensures n <= |s| && AllWordChars(s[..n])
    ensures n < |s| ==> !IsWordChar(s[n])
  {
    if s != [] && IsWordChar(s[0]) then
      var n := 1 + WordPrefix(s[1..]);
      assert forall k :: 1 <= k < n ==> s[..n][k] == s[1..][..n - 1][k - 1];
      n
    else 0
  }

  /**
   * A full match of `(\w+)=(.*)`: the name is the word characters before the
   * first `=`, the value everything after it.
   */
  function SplitAssignment(arg: string): Option<(string, string)> {
    var n := WordPrefix(arg);
    if 0 < n < |arg| && arg[n] == '=' && NoLineBreak(arg[n + 1..]) then Some((arg[..n], arg[n + 1..]))
    else None
  }

  /** `SplitAssignment` accepts exactly the texts `name=value` with a word name and a one-line value. */
  lemma SplitAssignmentIff(arg: string, name: string, value: string)
    ensures SplitAssignment(arg) == Some((name, value))
      <==> arg == name + "=" + value && name != "" && AllWordChars(name) && NoLineBreak(value)
  {
    if arg == name + "=" + value && name != "" && AllWordChars(name) && NoLineBreak(value) {
      NameLength(arg, name, value);
      assert arg[..|name|] == name;
      assert arg[|name| + 1..] == value;
    }
  }

  lemma {:induction false} NameLength(arg: string, name: string, value: string)
    requires arg == name + "=" + value && AllWordChars(name)
    ensures WordPrefix(arg) == |name|
    decreases |name|
  {
    if name != [] {
      assert arg[1..] == name[1..] + "=" + value;
      NameLength(arg[1..], name[1..], value);
    }
  }

  function KeyOf(arg: string): string {
    if SplitAssignment(arg).Some? then SplitAssignment(arg).value.0 else ""
  }

  function ValueOf(arg: string): string {
    if SplitAssignment(arg).Some? then SplitAssignment(arg).value.1 else ""
  }

  predicate AllAssignments(args: seq<string>) {
    forall i :: 0 <= i < |args| ==> SplitAssignment(args[i]).Some?
  }

  /** The names of the arguments, in order. */
  function KeysOf(args: seq<string>): (r: seq<string>)
    ensures |r| == |args| && forall i :: 0 <= i < |args| ==> r[i] == KeyOf(args[i])
  {
    if args == [] then [] else [KeyOf(args[0])] + KeysOf(args[1..])
  }

  // ---------------------------------------------------------------------------
  // Scanning the arguments of a call
  // ---------------------------------------------------------------------------

  /** How the scan of the arguments ended: an argument that is no assignment, a repeated name, or the arguments. */
  datatype ArgScan = NoMatch | Duplicate(key: string) | Matched(procArgs: ProcArgs)

  /** The argument loop of `TryConvertShellToProc`, adding to `acc`. */
  function ScanArgs(args: seq<string>, acc: ProcArgs): ArgScan
    requires acc.Valid()
  {
    if args == [] then Matched(acc)
    else
      match SplitAssignment(args[0])
      case None => NoMatch
      case Some((key, value)) =>
        if acc.Has(key) then Duplicate(key) else ScanArgs(args[1..], acc.Add(key, value))
  }

  /** The scan yields arguments exactly when every argument is an assignment and no name repeats. */
  lemma {:induction false} ScanMatched(args: seq<string>, acc: ProcArgs)
    requires acc.Valid()
    ensures ScanArgs(args, acc).Matched? <==> AllAssignments(args) && Distinct(acc.order + KeysOf(args))
    decreases |args|
  {
    if args == [] {
      assert acc.order + KeysOf(args) == acc.order;
    } else {
      var keys := KeysOf(args);
      assert keys == [KeyOf(args[0])] + KeysOf(args[1..]);
      AllAssignmentsCons(args);
      if SplitAssignment(args[0]).Some? {
        var (key, value) := SplitAssignment(args[0]).value;
        if acc.Has(key) {
          var p :| 0 <= p < |acc.order| && acc.order[p] == key;
          assert (acc.order + keys)[p] == (acc.order + keys)[|acc.order|];
        } else {
          ScanMatched(args[1..], acc.Add(key, value));
          Assoc(acc.order, [key], KeysOf(args[1..]));
        }
      }
    }
  }

  lemma AllAssignmentsCons(args: seq<string>)
    requires args != []
    ensures AllAssignments(args) <==> SplitAssignment(args[0]).Some? && AllAssignments(args[1..])
  {
    assert forall i :: 1 <= i < |args| ==> args[1..][i - 1] == args[i];
  }

  /**
   * The arguments the scan yields hold the names in order, each with its
   * value, and leave the values of other names as they were.
   */
  lemma {:induction false} ScanMatchedArgs(args: seq<string>, acc: ProcArgs)
    requires acc.Valid() && ScanArgs(args, acc).Matched?
    ensures var r := ScanArgs(args, acc).procArgs;
      r.Valid() && r.order == acc.order + KeysOf(args)
      && (forall i :: 0 <= i < |args| ==> r.Get(KeyOf(args[i])) == ValueOf(args[i]))
      && (forall k :: k !in KeysOf(args) ==> r.Get(k) == acc.Get(k))
    decreases |args|
  {
    if args == [] {
      assert acc.order + KeysOf(args) == acc.order;
    } else {
      var (key, value) := SplitAssignment(args[0]).value;
      var acc' := acc.Add(key, value);
      var rest := args[1..];
      var r := ScanArgs(args, acc).procArgs;
      assert r == ScanArgs(rest, acc').procArgs;
      ScanMatchedArgs(rest, acc');
      assert KeysOf(args) == [key] + KeysOf(rest);
      assert r.order == acc.order + KeysOf(args) by {
        Assoc(acc.order, [key], KeysOf(rest));
      }
      assert key !in KeysOf(rest) by {
        FirstKeyNotRepeated(args, acc);
      }
      forall i | 0 <= i < |args|
        ensures r.Get(KeyOf(args[i])) == ValueOf(args[i])
      {
        if i > 0 {
          assert args[i] == rest[i - 1];
        }
      }
    }
  }

  /** When the scan yields arguments, the first name does not come again. */
  lemma FirstKeyNotRepeated(args: seq<string>, acc: ProcArgs)
    requires acc.Valid() && ScanArgs(args, acc).Matched? && args != []
    ensures KeyOf(args[0]) !in KeysOf(args[1..])
  {
    ScanMatched(args, acc);
    var all := acc.order + KeysOf(args);
    var k0 := |acc.order|;
    forall i | 0 <= i < |args| - 1
      ensures KeysOf(args[1..])[i] != KeyOf(args[0])
    {
      assert all[k0] == KeysOf(args)[0] == KeyOf(args[0]);
      assert all[k0 + 1 + i] == KeysOf(args)[1 + i] == KeyOf(args[1 + i]) == KeysOf(args[1..])[i];
    }
  }


  /** A repeated name: some argument, after assignments only, repeats a name given before it. */
  lemma {:induction false} ScanDuplicate(args: seq<string>, acc: ProcArgs, key: string)
    requires acc.Valid() && ScanArgs(args, acc) == Duplicate(key)
    ensures exists j :: RepeatsAt(args, acc.order, key, j)
    decreases |args|
  {
    var (k0, v0) := SplitAssignment(args[0]).value;
    if acc.Has(k0) {
      assert args[..0] == [] && args[..1] == [args[0]];
      assert RepeatsAt(args, acc.order, key, 0);
    } else {
      var acc' := acc.Add(k0, v0);
      ScanDuplicate(args[1..], acc', key);
      var j :| RepeatsAt(args[1..], acc'.order, key, j);
      RepeatsAtCons(args, acc.order, key, j);
    }
  }

  /** Argument `j` is an assignment of `key`, after assignments only, and `key` was given before it. */
  predicate RepeatsAt(args: seq<string>, before: seq<string>, key: string, j: int) {
    0 <= j < |args| && AllAssignments(args[..j + 1]) && KeyOf(args[j]) == key
    && key in before + KeysOf(args[..j])
  }

  lemma RepeatsAtCons(args: seq<string>, before: seq<string>, key: string, j: nat)
    requires args != [] && SplitAssignment(args[0]).Some?
    requires RepeatsAt(args[1..], before + [KeyOf(args[0])], key, j)
    ensures RepeatsAt(args, before, key, j + 1)
  {
    SliceCons(args, j + 1);
    SliceCons(args, j);
    assert KeysOf(args[..j + 1]) == [KeyOf(args[0])] + KeysOf(args[1..][..j]);
    Assoc(before, [KeyOf(args[0])], KeysOf(args[1..][..j]));
    AllAssignmentsCons(args[..j + 2]);
  }

  /**
   * The converse of `ScanDuplicate`: when argument `j`, after assignments
   * only, repeats a name given before it, the scan reports a repeated name
   * (at `j` or at an earlier argument).
   */
  lemma {:induction false} ScanRepeat(args: seq<string>, acc: ProcArgs, key: string, j: nat)
    requires acc.Valid() && RepeatsAt(args, acc.order, key, j)
    ensures ScanArgs(args, acc).Duplicate?
    decreases j
  {
    assert SplitAssignment(args[..j + 1][0]).Some?;
    var (k0, v0) := SplitAssignment(args[0]).value;
    if j == 0 {
      assert args[..0] == [];
      assert acc.order + KeysOf(args[..0]) == acc.order;
      assert k0 == KeyOf(args[0]) == key;
    } else if !acc.Has(k0) {
      var acc' := acc.Add(k0, v0);
      SliceCons(args, j);
      SliceCons(args, j - 1);
      assert KeysOf(args[..j]) == [k0] + KeysOf(args[1..][..j - 1]);
      Assoc(acc.order, [k0], KeysOf(args[1..][..j - 1]));
      AllAssignmentsCons(args[..j + 1]);
      assert args[..j + 1][1..] == args[1..][..j];
      assert args[1..][j - 1] == args[j];
      assert RepeatsAt(args[1..], acc'.order, key, j - 1);
      ScanRepeat(args[1..], acc', key, j - 1);
    }
  }

  /**
   * An argument `j` that is no assignment, after distinct assignments only,
   * ends the scan without a repeated name.
   */
  lemma {:induction false} ScanNoMatchAt(args: seq<string>, acc: ProcArgs, j: nat)
    requires acc.Valid() && j < |args| && SplitAssignment(args[j]).None?
    requires AllAssignments(args[..j]) && Distinct(acc.order + KeysOf(args[..j]))
    ensures ScanArgs(args, acc) == NoMatch
    decreases j
  {
    if j > 0 {
      assert SplitAssignment(args[..j][0]).Some?;
      var (k0, v0) := SplitAssignment(args[0]).value;
      var all := acc.order + KeysOf(args[..j]);
      assert all[|acc.order|] == k0;
      assert k0 !in acc.order by {
        forall p | 0 <= p < |acc.order|
          ensures acc.order[p] != k0
        {
          assert all[p] == acc.order[p];
        }
      }
      var acc' := acc.Add(k0, v0);
      SliceCons(args, j - 1);
      assert KeysOf(args[..j]) == [k0] + KeysOf(args[1..][..j - 1]);
      Assoc(acc.order, [k0], KeysOf(args[1..][..j - 1]));
      AllAssignmentsCons(args[..j]);
      assert args[..j][1..] == args[1..][..j - 1];
      assert args[1..][j - 1] == args[j];
      ScanNoMatchAt(args[1..], acc', j - 1);
    }
  }

  lemma SliceCons<T>(s: seq<T>, j: nat)
    requires j < |s|
    ensures s[..j + 1] == [s[0]] + s[1..][..j]
  {
  }

  /** An argument that is no assignment stops the scan, after assignments only. */
  lemma {:induction false} ScanNoMatch(args: seq<string>, acc: ProcArgs)
    requires acc.Valid() && ScanArgs(args, acc).NoMatch?
    ensures exists j :: 0 <= j < |args| && SplitAssignment(args[j]).None? && AllAssignments(args[..j])
    decreases |args|
  {
    if SplitAssignment(args[0]).None? {
      assert AllAssignments(args[..0]);
    } else {
      var (k0, v0) := SplitAssignment(args[0]).value;
      ScanNoMatch(args[1..], acc.Add(k0, v0));
      var j :| 0 <= j < |args[1..]| && SplitAssignment(args[1..][j]).None? && AllAssignments(args[1..][..j]);
      SliceCons(args, j);
      assert SplitAssignment(args[j + 1]).None? && AllAssignments(args[..j + 1]);
    }
  }

  // ---------------------------------------------------------------------------
  // TryConvertShellToProc
  // ---------------------------------------------------------------------------

  /** What converting one item gives: whether to go on, and the item afterwards. */
  function ConvertItem(parse: string -> ParseResult, names: set<string>, item: CommandItem): (bool, CommandItem) {
    if !item.Shell? then (true, item)
    else
      match parse(item.shellCmd)
      case Parsed(argLists) =>
        if |argLists| != 1 || argLists[0] == [] || argLists[0][0] !in names then (true, item)
        else
          (match ScanArgs(argLists[0][1..], NoArgs())
           case NoMatch => (true, item)
           case Duplicate(_) => (false, item)
           case Matched(procArgs) => (true, Proc(item.name, argLists[0][0], procArgs)))
      case _ => (true, item)
  }

  /** The single argument list of a shell item's text, when it has exactly one and it is not empty. */
  predicate SingleCall(parse: string -> ParseResult, item: CommandItem) {
    item.Shell? && parse(item.shellCmd).Parsed?
    && |parse(item.shellCmd).argLists| == 1 && parse(item.shellCmd).argLists[0] != []
  }

  function CallWords(parse: string -> ParseResult, item: CommandItem): seq<string>
    requires SingleCall(parse, item)
  {
    parse(item.shellCmd).argLists[0]
  }

  /**
   * `CommandItem::TryConvertShellToProc`: the item is left as it is, and the
   * result is true, unless it is a shell item whose text parses to one
   * non-empty argument list headed by a known procedure name and whose other
   * words are all `name=value`; then it becomes a call of that procedure with
   * those arguments, or, when a name repeats, the result is false.
   */
  method TryConvertShellToProc(parse: string -> ParseResult, names: set<string>, item: CommandItem)
    returns (ok: bool, r: CommandItem)
    ensures (ok, r) == ConvertItem(parse, names, item)
    ensures !SingleCall(parse, item) ==> ok && r == item
    ensures SingleCall(parse, item) && CallWords(parse, item)[0] !in names ==> ok && r == item
    ensures !ok ==> r == item
    ensures r != item ==> r.Proc? && item.Shell? && r.name == item.name
  {
    if !item.Shell? {
      return true, item;
    }
    var parsed := parse(item.shellCmd);
    if !parsed.Parsed? {
      return true, item;
    }
    var argLists := parsed.argLists;
    if |argLists| != 1 {
      return true, item;
    }
    var args := argLists[0];
    if |args| == 0 {
      return true, item;
    }
    var procName := args[0];
    if procName !in names {
      return true, item;
    }
    var procArgs := NoArgs();
    var i := 1;
    while i < |args|
      invariant 1 <= i <= |args|
      invariant procArgs.Valid()
      invariant ScanArgs(args[i..], procArgs) == ScanArgs(args[1..], NoArgs())
    {
      var m := SplitAssignment(args[i]);
      if m.None? {
        return true, item;
      }
      var (key, value) := m.value;
      if procArgs.Has(key) {
        return false, item;
      }
      assert args[i..][1..] == args[i + 1..];
      procArgs := procArgs.Add(key, value);
      i := i + 1;
    }
    return true, Proc(item.name, procName, procArgs);
  }

  /** A conversion that changes the item yields the scanned arguments of a single call of a known procedure. */
  lemma ConvertedScan(parse: string -> ParseResult, names: set<string>, item: CommandItem)
    requires ConvertItem(parse, names, item).1 != item
    ensures SingleCall(parse, item) && CallWords(parse, item)[0] in names
    ensures ScanArgs(CallWords(parse, item)[1..], NoArgs()).Matched?
    ensures ConvertItem(parse, names, item).1
      == Proc(item.name, CallWords(parse, item)[0], ScanArgs(CallWords(parse, item)[1..], NoArgs()).procArgs)
  {
  }

  /**
   * A conversion that changes the item turns a single call of a known
   * procedure into that call, with every further word an assignment and the
   * arguments in the order of the words.
   */
  lemma ConvertedCall(parse: string -> ParseResult, names: set<string>, item: CommandItem)
    requires ConvertItem(parse, names, item).1 != item
    ensures SingleCall(parse, item)
    ensures var words := CallWords(parse, item);
      var r := ConvertItem(parse, names, item).1;
      r == Proc(item.name, words[0], r.procArgs) && words[0] in names
      && AllAssignments(words[1..]) && Distinct(KeysOf(words[1..]))
      && r.procArgs.Valid() && r.procArgs.order == KeysOf(words[1..])
      && forall i :: 1 <= i < |words| ==> r.procArgs.Get(KeyOf(words[i])) == ValueOf(words[i])
  {
    ConvertedScan(parse, names, item);
    var words := CallWords(parse, item);
    var args := words[1..];
    ScanMatched(args, NoArgs());
    ScanMatchedArgs(args, NoArgs());
    assert NoArgs().order + KeysOf(args) == KeysOf(args);
    forall i | 1 <= i < |words|
      ensures ScanArgs(args, NoArgs()).procArgs.Get(KeyOf(words[i])) == ValueOf(words[i])
    {
      assert words[i] == args[i - 1];
    }
  }

  /** A conversion fails only on a call of a known procedure that repeats an argument name. */
  lemma ConvertFails(parse: string -> ParseResult, names: set<string>, item: CommandItem)
    requires !ConvertItem(parse, names, item).0
    ensures SingleCall(parse, item) && CallWords(parse, item)[0] in names
    ensures var args := CallWords(parse, item)[1..];
      exists j :: 0 <= j < |args| && AllAssignments(args[..j + 1]) && KeyOf(args[j]) in KeysOf(args[..j])
  {
    assert SingleCall(parse, item);
    var args := CallWords(parse, item)[1..];
    var key := ScanArgs(args, NoArgs()).key;
    ScanDuplicate(args, NoArgs(), key);
    var j :| RepeatsAt(args, NoArgs().order, key, j);
    assert NoArgs().order + KeysOf(args[..j]) == KeysOf(args[..j]);
  }

  /**
   * The converse of `ConvertFails`: a call of a known procedure in which an
   * argument, after assignments only, repeats an earlier name makes the
   * conversion fail, with the item left as it is.
   */
  lemma ConvertRepeatFails(parse: string -> ParseResult, names: set<string>, item: CommandItem, j: nat)
    requires SingleCall(parse, item) && CallWords(parse, item)[0] in names
    requires var args := CallWords(parse, item)[1..];
      j < |args| && AllAssignments(args[..j + 1]) && KeyOf(args[j]) in KeysOf(args[..j])
    ensures !ConvertItem(parse, names, item).0 && ConvertItem(parse, names, item).1 == item
  {
    var args := CallWords(parse, item)[1..];
    assert NoArgs().order + KeysOf(args[..j]) == KeysOf(args[..j]);
    ScanRepeat(args, NoArgs(), KeyOf(args[j]), j);
  }

  /**
   * A call of a known procedure in which an argument that is not `name=value`
   * comes after distinct assignments only is left as it is, and the
   * conversion goes on.
   */
  lemma ConvertNoMatchKeeps(parse: string -> ParseResult, names: set<string>, item: CommandItem, j: nat)
    requires SingleCall(parse, item) && CallWords(parse, item)[0] in names
    requires var args := CallWords(parse, item)[1..];
      j < |args| && SplitAssignment(args[j]).None? && AllAssignments(args[..j]) && Distinct(KeysOf(args[..j]))
    ensures ConvertItem(parse, names, item) == (true, item)
  {
    var args := CallWords(parse, item)[1..];
    assert NoArgs().order + KeysOf(args[..j]) == KeysOf(args[..j]);
    ScanNoMatchAt(args, NoArgs(), j);
  }

  /** A call of a known procedure whose words are distinct assignments is always converted. */
  lemma ConvertSucceeds(parse: string -> ParseResult, names: set<string>, item: CommandItem)
    requires SingleCall(parse, item) && CallWords(parse, item)[0] in names
    requires AllAssignments(CallWords(parse, item)[1..]) && Distinct(KeysOf(CallWords(parse, item)[1..]))
    ensures ConvertItem(parse, names, item).0 && ConvertItem(parse, names, item).1.Proc?
  {
    var args := CallWords(parse, item)[1..];
    assert NoArgs().order + KeysOf(args) == KeysOf(args);
    ScanMatched(args, NoArgs());
  }

  // ---------------------------------------------------------------------------
  // UpdateCommandToProcCalling
  // ---------------------------------------------------------------------------

  /** The index of the first item whose conversion fails, or the number of items. */
  function FirstFailure(parse: string -> ParseResult, names: set<string>, items: seq<CommandItem>): (f: nat)
    ensures f <= |items|
    ensures forall k :: 0 <= k < f ==> ConvertItem(parse, names, items[k]).0
    ensures f < |items| ==> !ConvertItem(parse, names, items[f]).0
  {
    if items == [] || !ConvertItem(parse, names, items[0]).0 then 0
    else 1 + FirstFailure(parse, names, items[1..])
  }

  /**
   * A block after the rewrite: the items before the first failing one
   * converted, the rest as they were; true when no item fails.
   */
  function RewriteBlock(parse: string -> ParseResult, names: set<string>, block: Block): (bool, Block) {
    var f := FirstFailure(parse, names, block.items);
    var items := seq(|block.items|, k requires 0 <= k < |block.items| =>
      if k < f then ConvertItem(parse, names, block.items[k]).1 else block.items[k]);
    (f == |block.items|, Block(items, block.parallel))
  }

  /** `Block::UpdateCommandToProcCalling`. */
  method UpdateCommandToProcCalling(parse: string -> ParseResult, names: set<string>, block: Block)
    returns (ok: bool, r: Block)
    ensures (ok, r) == RewriteBlock(parse, names, block)
    ensures ok <==> forall k :: 0 <= k < |block.items| ==> ConvertItem(parse, names, block.items[k]).0
    ensures |r.items| == |block.items| && r.parallel == block.parallel
  {
    var f := FirstFailure(parse, names, block.items);
    var items := block.items;
    var i := 0;
    while i < |items|
      invariant 0 <= i <= f && |items| == |block.items|
      invariant forall k :: 0 <= k < i ==> items[k] == ConvertItem(parse, names, block.items[k]).1
      invariant forall k :: i <= k < |items| ==> items[k] == block.items[k]
    {
      var itemOk, item := TryConvertShellToProc(parse, names, items[i]);
      if !itemOk {
        assert i == f;
        assert Block(items, block.parallel) == RewriteBlock(parse, names, block).1;
        return false, Block(items, block.parallel);
      }
      items := items[i := item];
      i := i + 1;
    }
    assert Block(items, block.parallel) == RewriteBlock(parse, names, block).1;
    return true, Block(items, block.parallel);
  }

  /** The rewrite changes no reference and keeps every item well formed. */
  lemma RewriteKeepsRefs(parse: string -> ParseResult, names: set<string>, block: Block, k: nat, n: nat)
    requires ItemsOk(block.items, k, n)
    ensures var r := RewriteBlock(parse, names, block).1;
      ItemsOk(r.items, k, n)
      && forall i :: 0 <= i < |r.items| ==>
        (r.items[i].BlockRef? <==> block.items[i].BlockRef?) && (block.items[i].BlockRef? ==> r.items[i] == block.items[i])
  {
    var r := RewriteBlock(parse, names, block).1;
    forall i | 0 <= i < |r.items|
      ensures ItemOk(r.items[i], k, n)
      ensures r.items[i].BlockRef? <==> block.items[i].BlockRef?
      ensures block.items[i].BlockRef? ==> r.items[i] == block.items[i]
    {
      if r.items[i] != block.items[i] {
        ConvertedCall(parse, names, block.items[i]);
      }
    }
  }

  // ---------------------------------------------------------------------------
  // FinalCheckAfterLoad
  // ---------------------------------------------------------------------------

  /** The index of the first block whose rewrite fails, or the number of blocks. */
  function FirstFailingBlock(parse: string -> ParseResult, names: set<string>, blocks: seq<Block>): (f: nat)
    ensures f <= |blocks|
    ensures forall k :: 0 <= k < f ==> RewriteBlock(parse, names, blocks[k]).0
    ensures f < |blocks| ==> !RewriteBlock(parse, names, blocks[f]).0
  {
    if blocks == [] || !RewriteBlock(parse, names, blocks[0]).0 then 0
    else 1 + FirstFailingBlock(parse, names, blocks[1..])
  }

  /**
   * The arena after the rewrite pass: every block up to and including the
   * first failing one rewritten (the failing one only up to its failing
   * item), the rest as they were; true when no block fails.
   */
  function RewriteBlocks(parse: string -> ParseResult, names: set<string>, blocks: seq<Block>): (bool, seq<Block>) {
    var f := FirstFailingBlock(parse, names, blocks);
    (f == |blocks|, seq(|blocks|, k requires 0 <= k < |blocks| =>
      if k <= f then RewriteBlock(parse, names, blocks[k]).1 else blocks[k]))
  }

  /** The arena after the rewrite pass, block by block. */
  lemma RewriteBlocksAt(parse: string -> ParseResult, names: set<string>, blocks: seq<Block>)
    ensures var r := RewriteBlocks(parse, names, blocks); var f := FirstFailingBlock(parse, names, blocks);
      |r.1| == |blocks| && (r.0 <==> f == |blocks|)
      && (forall k :: 0 <= k <= f && k < |blocks| ==> r.1[k] == RewriteBlock(parse, names, blocks[k]).1)
      && (forall k :: f < k < |blocks| ==> r.1[k] == blocks[k])
  {
  }

  /**
   * The rewrite pass fails exactly when some item of some block reports a
   * repeated key; it keeps the arena well formed and the number of items and
   * the kind of every block.
   */
  lemma RewriteBlocksKeeps(parse: string -> ParseResult, names: set<string>, blocks: seq<Block>)
    requires WellFormed(blocks)
    ensures var r := RewriteBlocks(parse, names, blocks);
      WellFormed(r.1) && |r.1| == |blocks|
      && (forall k :: 0 <= k < |blocks| ==> |r.1[k].items| == |blocks[k].items| && r.1[k].parallel == blocks[k].parallel)
      && (r.0 <==> forall k, i :: 0 <= k < |blocks| && 0 <= i < |blocks[k].items| ==> ConvertItem(parse, names, blocks[k].items[i]).0)
  {
    var r := RewriteBlocks(parse, names, blocks);
    var f := FirstFailingBlock(parse, names, blocks);
    forall k | 0 <= k < |blocks|
      ensures ItemsOk(r.1[k].items, k, |blocks|)
    {
      RewriteKeepsRefs(parse, names, blocks[k], k, |blocks|);
    }
    if !r.0 {
      var i := FirstFailure(parse, names, blocks[f].items);
      assert !ConvertItem(parse, names, blocks[f].items[i]).0;
    }
  }
}
