/**
 * The pipeline document model: `ProcArgs`, `CommandItem`, `Block` and
 * `Procedure`, the arena of blocks they live in, and the text renderers
 * (`ToString`, `ToStringRaw` and the text of `Pipeline::Save`).
 *
 * `ProcArgs`, `CommandItem` and `Block` are value types in the source
 * (copied into the arena and into items), so they are datatypes here; an
 * operation that updates one in place is a function that returns the
 * updated value.
 */
module Document {
  import opened Wrappers
  import opened StringUtils

  /** No element of `s` occurs twice. */
  predicate Distinct<T(==)>(s: seq<T>) {
    forall i, j :: 0 <= i < j < |s| ==> s[i] != s[j]
  }

  // ---------------------------------------------------------------------------
  // ProcArgs: keyword arguments of a procedure call, in insertion order
  // ---------------------------------------------------------------------------

  datatype ProcArgs = ProcArgs(args: map<string, string>, order: seq<string>) {
    /** `args` and `order` hold the same keys, and no key is in `order` twice. */
    predicate Valid() {
      (forall k :: k in args ==> k in order) && (forall k :: k in order ==> k in args) && Distinct(order)
    }

    predicate Has(key: string) {
      key in args
    }

    /** The value of `key`, or the empty string when there is none. */
    function Get(key: string): string {
      if key in args then args[key] else ""
    }

    /** Adds a key that is not there yet, as the last one. */
    function Add(key: string, value: string): (r: ProcArgs)
      requires Valid() && !Has(key)
      ensures r.Valid()
      ensures r.Has(key) && r.Get(key) == value
      ensures forall k :: k != key ==> (r.Has(k) <==> Has(k)) && r.Get(k) == Get(k)
      ensures r.order == order + [key]
    {
      ProcArgs(args[key := value], order + [key])
    }

    /**
     * `ToString`: one chunk `" " + key + "=" + ShellQuote(value)` per key, in
     * insertion order.
     */
    function ArgsText(quote: string -> string): string
      requires Valid()
    {
      Chunks(order, args, quote)
    }
  }

  /** `ProcArgs::Clear`, and the arguments of a new `ProcArgs`. */
  function NoArgs(): (r: ProcArgs)
    ensures r.Valid() && r.order == []
    ensures forall k :: !r.Has(k) && r.Get(k) == ""
  {
    ProcArgs(map[], [])
  }

  /** The chunks of the keys in `keys`, in that order. */
  function Chunks(keys: seq<string>, args: map<string, string>, quote: string -> string): string
    requires forall k :: k in keys ==> k in args
  {
    if keys == [] then ""
    else
      var last := keys[|keys| - 1];
      Chunks(keys[..|keys| - 1], args, quote) + " " + last + "=" + quote(args[last])
  }

  /** The chunks depend only on the values of the keys listed. */
  lemma {:induction false} ChunksFrame(keys: seq<string>, a: map<string, string>, b: map<string, string>, quote: string -> string)
    requires forall k :: k in keys ==> k in a && k in b && a[k] == b[k]
    ensures Chunks(keys, a, quote) == Chunks(keys, b, quote)
  {
    if keys != [] {
      ChunksFrame(keys[..|keys| - 1], a, b, quote);
    }
  }

  /** Adding a key appends exactly its chunk to the text of the arguments. */
  lemma ArgsTextAdd(a: ProcArgs, key: string, value: string, quote: string -> string)
    requires a.Valid() && !a.Has(key)
    ensures a.Add(key, value).ArgsText(quote) == a.ArgsText(quote) + " " + key + "=" + quote(value)
  {
    var r := a.Add(key, value);
    assert r.order[..|r.order| - 1] == a.order;
    ChunksFrame(a.order, a.args, r.args, quote);
  }

  /** `args` and `order` always have the same size, as `ProcArgs::ToString` asserts. */
  lemma ProcArgsSizes(a: ProcArgs)
    requires a.Valid()
    ensures |a.args| == |a.order|
  {
    assert a.args.Keys == set k | k in a.order;
    DistinctCard(a.order);
  }

  /** A sequence without repetition has as many distinct elements as it is long. */
  lemma {:induction false} DistinctCard(s: seq<string>)
    requires Distinct(s)
    ensures |set k | k in s| == |s|
    decreases |s|
  {
    if s != [] {
      var init, last := s[..|s| - 1], s[|s| - 1];
      assert s == init + [last];
      assert Distinct(init) by {
        forall i, j | 0 <= i < j < |init|
          ensures init[i] != init[j]
        {
          assert init[i] == s[i] && init[j] == s[j];
        }
      }
      DistinctCard(init);
      assert last !in set k | k in init by {
        forall i | 0 <= i < |init|
          ensures init[i] != last
        {
          assert init[i] == s[i];
        }
      }
      assert (set k | k in s) == (set k | k in init) + {last};
    }
  }

  // ---------------------------------------------------------------------------
  // CommandItem, Block, Procedure
  // ---------------------------------------------------------------------------

  /**
   * One item of a block: a shell command line, a call of a procedure with
   * keyword arguments, or a reference to another block of the arena. `name`
   * is the display name the item got when it was built; a shell item turned
   * into a call keeps it.
   */
  datatype CommandItem =
    | Shell(name: string, shellCmd: string)
    | Proc(name: string, procName: string, procArgs: ProcArgs)
    | BlockRef(blockIndex: nat)
  {
    /** `CommandItem::ToString()`: the command text of a shell item or a call. */
    function Text(quote: string -> string): string
      requires !BlockRef? && (Proc? ==> procArgs.Valid())
    {
      if Shell? then shellCmd else procName + procArgs.ArgsText(quote)
    }
  }

  /**
   * The shell-item constructor: the display name is the name characters of the
   * first word of the command, or "shell" when there are none.
   */
  function ShellItem(fullCmdLine: string): (c: CommandItem)
    ensures c.Shell? && c.shellCmd == fullCmdLine
    ensures c.name != "" && forall k :: 0 <= k < |c.name| ==> IsNameChar(c.name[k])
    ensures DisplayName(fullCmdLine) != "" ==> c.name == DisplayName(fullCmdLine)
    ensures DisplayName(fullCmdLine) == "" ==> c.name == "shell"
  {
    DisplayNameShape(fullCmdLine);
    var name := DisplayName(fullCmdLine);
    Shell(if name == "" then "shell" else name, fullCmdLine)
  }

  /** The procedure-call constructor: the display name is the procedure name. */
  function ProcItem(procName: string, procArgs: ProcArgs): (c: CommandItem)
    ensures c.Proc? && c.name == procName && c.procName == procName && c.procArgs == procArgs
  {
    Proc(procName, procName, procArgs)
  }

  /** An ordered list of items, run one after the other or all at once. */
  datatype Block = Block(items: seq<CommandItem>, parallel: bool) {
    predicate IsEmpty() {
      items == []
    }

    /** `Block::Clear`: no items, sequential. */
    function Clear(): (r: Block)
      ensures r.IsEmpty() && !r.parallel
    {
      Block([], false)
    }

    /** Appends a shell item for the command line. */
    function AppendCommand(fullCmdLine: string): (r: Block)
      ensures r.items == items + [ShellItem(fullCmdLine)] && r.parallel == parallel
    {
      this.(items := items + [ShellItem(fullCmdLine)])
    }

    /** Appends a call of the procedure. */
    function AppendCall(procName: string, procArgs: ProcArgs): (r: Block)
      ensures r.items == items + [ProcItem(procName, procArgs)] && r.parallel == parallel
    {
      this.(items := items + [ProcItem(procName, procArgs)])
    }

    /** Appends a reference to block `blockIndex` of the arena. */
    function AppendBlock(blockIndex: nat): (r: Block)
      ensures r.items == items + [BlockRef(blockIndex)] && r.parallel == parallel
    {
      this.(items := items + [BlockRef(blockIndex)])
    }
  }

  /** An empty block of the given kind. */
  function EmptyBlock(parallel: bool): (b: Block)
    ensures b.IsEmpty() && b.parallel == parallel
  {
    Block([], parallel)
  }

  /** A named procedure and the index of its body in the arena. */
  datatype Procedure = Procedure(name: string, blockIndex: nat)

  // ---------------------------------------------------------------------------
  // The arena of blocks
  // ---------------------------------------------------------------------------

  /**
   * An item of block `k` in an arena of `n` blocks: a reference points at an
   * existing block other than block 0, and, from any block but block 0, at an
   * earlier one (blocks are appended after the blocks they contain). Call
   * arguments are well formed.
   */
  predicate ItemOk(item: CommandItem, k: nat, n: nat) {
    (item.BlockRef? ==> 1 <= item.blockIndex < n && (k > 0 ==> item.blockIndex < k))
    && (item.Proc? ==> item.procArgs.Valid())
  }

  predicate ItemsOk(items: seq<CommandItem>, k: nat, n: nat) {
    forall i :: 0 <= i < |items| ==> ItemOk(items[i], k, n)
  }

  /** The arena: block 0 exists and every item of every block is well formed. */
  predicate WellFormed(blocks: seq<Block>) {
    |blocks| >= 1 && forall k :: 0 <= k < |blocks| ==> ItemsOk(blocks[k].items, k, |blocks|)
  }

  /** Every procedure is registered under its own name and owns a block other than block 0. */
  predicate ProcsOk(procList: map<string, Procedure>, n: nat) {
    forall name :: name in procList ==> procList[name].name == name && 1 <= procList[name].blockIndex < n
  }

  /** `Pipeline::AppendBlock` on the arena: the block goes to index `|blocks|`. */
  function AppendToArena(blocks: seq<Block>, block: Block): (r: seq<Block>)
    requires WellFormed(blocks) && ItemsOk(block.items, |blocks|, |blocks|)
    ensures WellFormed(r)
    ensures |r| == |blocks| + 1 && r[..|blocks|] == blocks && r[|blocks|] == block
  {
    var r := blocks + [block];
    assert forall k :: 0 <= k < |blocks| ==> r[k] == blocks[k];
    r
  }

  /** A well-formed arena stays well formed as blocks are appended. */
  lemma ItemsOkGrow(items: seq<CommandItem>, k: nat, n: nat, m: nat)
    requires ItemsOk(items, k, n) && n <= m
    ensures ItemsOk(items, k, m)
  {
  }

  // ---------------------------------------------------------------------------
  // Rendering
  // ---------------------------------------------------------------------------

  function Open(parallel: bool): string {
    if parallel then "{{" else "{"
  }

  function Close(parallel: bool): string {
    if parallel then "}}" else "}"
  }

  /** The termination measure of the renderers: block 0 ranks above every other block. */
  function Rank(k: nat, n: nat): nat {
    if k == 0 then n else k
  }

  /** `Block::ToString`: the brackets on lines of their own and each item one tab deeper. */
  function BlockToString(blocks: seq<Block>, k: nat, indent: string, quote: string -> string): string
    requires WellFormed(blocks) && k < |blocks|
    decreases Rank(k, |blocks|), 2, 0
  {
    var b := blocks[k];
    indent + Open(b.parallel) + "\n"
    + ItemsToString(blocks, k, b.items, indent + "\t", quote)
    + indent + Close(b.parallel) + "\n"
  }

  function ItemsToString(blocks: seq<Block>, k: nat, items: seq<CommandItem>, indent: string, quote: string -> string): string
    requires WellFormed(blocks) && k <= |blocks| && ItemsOk(items, k, |blocks|)
    decreases Rank(k, |blocks|), 1, |items|
  {
    if items == [] then ""
    else
      ItemsToString(blocks, k, items[..|items| - 1], indent, quote)
      + ItemToString(blocks, k, items[|items| - 1], indent, quote)
  }

  /**
   * `CommandItem::ToString(indent, pipeline)`: a reference renders the block it
   * points at, any other item its text on a line of its own.
   */
  function ItemToString(blocks: seq<Block>, k: nat, item: CommandItem, indent: string, quote: string -> string): string
    requires WellFormed(blocks) && k <= |blocks| && ItemOk(item, k, |blocks|)
    decreases Rank(k, |blocks|), 0, 0
  {
    if item.BlockRef? then BlockToString(blocks, item.blockIndex, indent, quote)
    else indent + item.Text(quote) + "\n"
  }

  /** `Block::ToStringRaw`: as `BlockToString`, but every item is followed by a line break. */
  function BlockRaw(blocks: seq<Block>, k: nat, indent: string, quote: string -> string): string
    requires WellFormed(blocks) && k < |blocks|
    decreases Rank(k, |blocks|), 2, 0
  {
    var b := blocks[k];
    indent + Open(b.parallel) + "\n"
    + ItemsRaw(blocks, k, b.items, indent + "\t", quote)
    + indent + Close(b.parallel) + "\n"
  }

  function ItemsRaw(blocks: seq<Block>, k: nat, items: seq<CommandItem>, indent: string, quote: string -> string): string
    requires WellFormed(blocks) && k <= |blocks| && ItemsOk(items, k, |blocks|)
    decreases Rank(k, |blocks|), 1, |items|
  {
    if items == [] then ""
    else
      ItemsRaw(blocks, k, items[..|items| - 1], indent, quote)
      + ItemRaw(blocks, k, items[|items| - 1], indent, quote) + "\n"
  }

  /** `CommandItem::ToStringRaw`: no line break of its own. */
  function ItemRaw(blocks: seq<Block>, k: nat, item: CommandItem, indent: string, quote: string -> string): string
    requires WellFormed(blocks) && k <= |blocks| && ItemOk(item, k, |blocks|)
    decreases Rank(k, |blocks|), 0, 0
  {
    if item.BlockRef? then BlockRaw(blocks, item.blockIndex, indent, quote)
    else indent + item.Text(quote)
  }

  /** `Procedure::ToStringRaw`: the header `name() ` and then the body block. */
  function ProcToStringRaw(blocks: seq<Block>, proc: Procedure, quote: string -> string): string
    requires WellFormed(blocks) && proc.blockIndex < |blocks|
  {
    proc.name + "() " + BlockRaw(blocks, proc.blockIndex, "", quote)
  }

  /**
   * The opening line of a rendered block shows `{{` exactly when the block is
   * parallel, and its last line is the matching `}}` or `}` at the same
   * indentation.
   */
  lemma BlockOpening(blocks: seq<Block>, k: nat, indent: string, quote: string -> string)
    requires WellFormed(blocks) && k < |blocks|
    ensures var s := BlockToString(blocks, k, indent, quote);
      |s| > |indent| + 1 && s[..|indent|] == indent && s[|indent|] == '{'
      && (blocks[k].parallel <==> s[|indent| + 1] == '{')
    ensures var s := BlockToString(blocks, k, indent, quote);
      var last := if blocks[k].parallel then "}}\n" else "}\n";
      |s| >= |indent| + |last| && s[|s| - |indent| - |last|..] == indent + last
  {
    var s := BlockToString(blocks, k, indent, quote);
    var head := indent + Open(blocks[k].parallel) + "\n";
    var tail := indent + Close(blocks[k].parallel) + "\n";
    var body := ItemsToString(blocks, k, blocks[k].items, indent + "\t", quote);
    assert s == head + body + tail;
    assert s[|s| - |tail|..] == tail;
    assert s == head + (s[|head|..]);
    assert s[..|indent|] == head[..|indent|] == indent;
    assert s[|indent|] == head[|indent|];
    assert s[|indent| + 1] == head[|indent| + 1];
  }

  /**
   * Appending blocks to the arena does not change the rendering of any block
   * but block 0: a block other than block 0 only refers to earlier blocks.
   */
  lemma {:induction false} BlockStable(blocks: seq<Block>, big: seq<Block>, k: nat, indent: string, quote: string -> string)
    requires WellFormed(blocks) && WellFormed(big) && |blocks| <= |big| && big[..|blocks|] == blocks
    requires 1 <= k < |blocks|
    ensures BlockToString(big, k, indent, quote) == BlockToString(blocks, k, indent, quote)
    decreases k, 2, 0
  {
    assert big[k] == blocks[k];
    ItemsStable(blocks, big, k, blocks[k].items, indent + "\t", quote);
  }

  lemma {:induction false} ItemsStable(blocks: seq<Block>, big: seq<Block>, k: nat, items: seq<CommandItem>, indent: string, quote: string -> string)
    requires WellFormed(blocks) && WellFormed(big) && |blocks| <= |big| && big[..|blocks|] == blocks
    requires 1 <= k <= |blocks| && ItemsOk(items, k, |blocks|)
    ensures ItemsOk(items, k, |big|)
    ensures ItemsToString(big, k, items, indent, quote) == ItemsToString(blocks, k, items, indent, quote)
    decreases k, 1, |items|
  {
    if items != [] {
      ItemsStable(blocks, big, k, items[..|items| - 1], indent, quote);
      ItemStable(blocks, big, k, items[|items| - 1], indent, quote);
    }
  }

  lemma {:induction false} ItemStable(blocks: seq<Block>, big: seq<Block>, k: nat, item: CommandItem, indent: string, quote: string -> string)
    requires WellFormed(blocks) && WellFormed(big) && |blocks| <= |big| && big[..|blocks|] == blocks
    requires 1 <= k <= |blocks| && ItemOk(item, k, |blocks|)
    ensures ItemOk(item, k, |big|)
    ensures ItemToString(big, k, item, indent, quote) == ItemToString(blocks, k, item, indent, quote)
    decreases k, 0, 0
  {
    if item.BlockRef? {
      BlockStable(blocks, big, item.blockIndex, indent, quote);
    }
  }

  /** A block without references renders the same raw and plain. */
  lemma RawMatchesPlain(blocks: seq<Block>, k: nat, indent: string, quote: string -> string)
    requires WellFormed(blocks) && k < |blocks|
    requires forall i :: 0 <= i < |blocks[k].items| ==> !blocks[k].items[i].BlockRef?
    ensures BlockRaw(blocks, k, indent, quote) == BlockToString(blocks, k, indent, quote)
  {
    ItemsRawMatchPlain(blocks, k, blocks[k].items, indent + "\t", quote);
  }

  lemma {:induction false} ItemsRawMatchPlain(blocks: seq<Block>, k: nat, items: seq<CommandItem>, indent: string, quote: string -> string)
    requires WellFormed(blocks) && k <= |blocks| && ItemsOk(items, k, |blocks|)
    requires forall i :: 0 <= i < |items| ==> !items[i].BlockRef?
    ensures ItemsRaw(blocks, k, items, indent, quote) == ItemsToString(blocks, k, items, indent, quote)
  {
    if items != [] {
      ItemsRawMatchPlain(blocks, k, items[..|items| - 1], indent, quote);
    }
  }

  // ---------------------------------------------------------------------------
  // Procedure names in `std::map` order, and the text of Save
  // ---------------------------------------------------------------------------

  /** `std::string` ordering: lexicographic by character code. */
  predicate LexLess(a: string, b: string)
    decreases |a|
  {
    b != [] && (a == [] || a[0] < b[0] || (a[0] == b[0] && LexLess(a[1..], b[1..])))
  }

  lemma {:induction false} LexIrreflexive(a: string)
    ensures !LexLess(a, a)
    decreases |a|
  {
    if a != [] {
      LexIrreflexive(a[1..]);
    }
  }

  lemma {:induction false} LexTransitive(a: string, b: string, c: string)
    requires LexLess(a, b) && LexLess(b, c)
    ensures LexLess(a, c)
    decreases |a|
  {
    if a != [] && a[0] == b[0] && b[0] == c[0] {
      LexTransitive(a[1..], b[1..], c[1..]);
    }
  }

  lemma {:induction false} LexTotal(a: string, b: string)
    ensures a == b || LexLess(a, b) || LexLess(b, a)
    decreases |a|
  {
    if a != [] && b != [] && a[0] == b[0] {
      LexTotal(a[1..], b[1..]);
      if a[1..] == b[1..] {
        assert a == [a[0]] + a[1..] && b == [b[0]] + b[1..];
      }
    }
  }

  lemma LexAsymmetric()
    ensures forall a, b :: LexLess(a, b) ==> !LexLess(b, a)
  {
    forall a, b | LexLess(a, b)
      ensures !LexLess(b, a)
    {
      if LexLess(b, a) {
        LexTransitive(a, b, a);
        LexIrreflexive(a);
      }
    }
  }

  /** Every non-empty set of names has a least one. */
  lemma {:induction false} LeastNameExists(s: set<string>)
    requires s != {}
    ensures exists m :: m in s && forall x :: x in s ==> x == m || LexLess(m, x)
    decreases |s|
  {
    var y :| y in s;
    var rest := s - {y};
    if rest == {} {
      assert s == {y};
    } else {
      LeastNameExists(rest);
      var m :| m in rest && forall x :: x in rest ==> x == m || LexLess(m, x);
      LexTotal(m, y);
      if LexLess(m, y) {
        assert forall x :: x in s ==> x == m || LexLess(m, x);
      } else {
        forall x | x in s
          ensures x == y || LexLess(y, x)
        {
          if x != y {
            assert x == m || LexLess(m, x);
            if x != m {
              LexTransitive(y, m, x);
            }
          }
        }
      }
    }
  }

  /** The names of a set in ascending order, as a `std::map` iterates its keys. */
  function SortedNames(s: set<string>): (r: seq<string>)
    ensures forall x :: x in r <==> x in s
    ensures |r| == |s|
    ensures forall i, j :: 0 <= i < j < |r| ==> LexLess(r[i], r[j])
    decreases |s|
  {
    if s == {} then []
    else
      LeastNameExists(s);
      LexAsymmetric();
      var m :| m in s && forall x :: x in s ==> x == m || LexLess(m, x);
      var rest := SortedNames(s - {m});
      PrependLeast(m, s, rest);
      [m] + rest
  }

  /** The least name of a set, before the sorted names of the others, sorts the whole set. */
  lemma PrependLeast(m: string, s: set<string>, rest: seq<string>)
    requires m in s && forall x :: x in s ==> x == m || LexLess(m, x)
    requires forall x :: x in rest <==> x in s - {m}
    requires |rest| == |s - {m}|
    requires forall i, j :: 0 <= i < j < |rest| ==> LexLess(rest[i], rest[j])
    ensures forall x :: x in [m] + rest <==> x in s
    ensures |[m] + rest| == |s|
    ensures forall i, j :: 0 <= i < j < |[m] + rest| ==> LexLess(([m] + rest)[i], ([m] + rest)[j])
  {
    var r := [m] + rest;
    forall i, j | 0 <= i < j < |r|
      ensures LexLess(r[i], r[j])
    {
      if i == 0 {
        assert r[j] == rest[j - 1] && r[j] in s - {m};
      } else {
        assert r[i] == rest[i - 1] && r[j] == rest[j - 1];
      }
    }
  }

  /** The procedures, in name order, each followed by an empty line. */
  function ProcsText(blocks: seq<Block>, procList: map<string, Procedure>, names: seq<string>, quote: string -> string): string
    requires WellFormed(blocks) && ProcsOk(procList, |blocks|)
    requires forall n :: n in names ==> n in procList
  {
    if names == [] then ""
    else
      var last := names[|names| - 1];
      ProcsText(blocks, procList, names[..|names| - 1], quote) + ProcToStringRaw(blocks, procList[last], quote) + "\n"
  }

  /** The default block: nothing when empty, its only item bare, otherwise the whole block. */
  function DefaultText(blocks: seq<Block>, quote: string -> string): string
    requires WellFormed(blocks)
  {
    var items := blocks[0].items;
    if items == [] then ""
    else if |items| == 1 then ItemToString(blocks, 0, items[0], "", quote)
    else BlockToString(blocks, 0, "", quote)
  }

  /** What `Pipeline::Save` writes to the file. */
  function SaveText(blocks: seq<Block>, procList: map<string, Procedure>, quote: string -> string): string
    requires WellFormed(blocks) && ProcsOk(procList, |blocks|)
  {
    ProcsText(blocks, procList, SortedNames(procList.Keys), quote) + DefaultText(blocks, quote)
  }

  /** With no procedures and an empty default block, Save writes nothing. */
  lemma SaveEmpty(blocks: seq<Block>, procList: map<string, Procedure>, quote: string -> string)
    requires WellFormed(blocks) && ProcsOk(procList, |blocks|)
    requires procList == map[] && blocks[0].IsEmpty()
    ensures SaveText(blocks, procList, quote) == ""
  {
    assert SortedNames(procList.Keys) == [];
  }
}
