// compile: one pass over the tokens that emits bytecode into a buffer and
// resolves labels with a table. A branch or call to a label already defined
// gets its address at once; one to a label not yet defined is recorded in the
// table and overwritten when the definition arrives. The result is proved to
// be the reference image of bytecode.dfy, where every operand holds its
// label's first definition offset.
//
// Where the source writes past the label table, a pending list or the
// bytecode buffer, the model stops with an error instead.

module Compiler {
  import opened Blankspace
  import opened Operands
  import opened Translator
  import opened Labels
  import opened Bytecode

  datatype CompileError =
    | Lex(error: LexError)
    | BytecodeFull         // the next instruction does not fit the buffer
    | TooManyLabels        // the table already holds MAX_N_LABEL labels
    | TooManyForwardRefs   // a label already has UNDEF_LIST_SIZE pending references

  // ---------------------------------------------------------------------
  // How the program's definitions and references grow instruction by instruction

  lemma DefsAppend(instrs: seq<Instr>, i: Instr)
    ensures Defs(instrs + [i])
         == if i.Mark? && i.target !in Defs(instrs) then Defs(instrs)[i.target := SizeOf(instrs)] else Defs(instrs)
  {
    assert (instrs + [i])[..|instrs|] == instrs;
  }

  lemma SitesAppend(instrs: seq<Instr>, i: Instr, l: string)
    ensures Sites(instrs + [i], l)
         == Sites(instrs, l) + (if IsRef(i) && i.target == l then [SizeOf(instrs) + 1] else [])
  {
    assert (instrs + [i])[..|instrs|] == instrs;
  }

  // ---------------------------------------------------------------------
  // The label table against the program compiled so far

  /** What the table should say about a label, given the program compiled so far. */
  ghost function Expected(instrs: seq<Instr>, name: string): Option<LabelState>
  {
    if name in Defs(instrs) then Some(Resolved(Defs(instrs)[name]))
    else if Sites(instrs, name) != [] then Some(Pending(Sites(instrs, name)))
    else None
  }

  /** What the table says about a label. */
  ghost function Lookup(entries: seq<LabelInfo>, name: string): Option<LabelState>
  {
    match Find(entries, name, 0)
    case Some(k) => Some(entries[k].state)
    case None => None
  }

  /** The table tells the truth about every label. */
  ghost predicate Consistent(instrs: seq<Instr>, entries: seq<LabelInfo>)
  {
    forall name :: Lookup(entries, name) == Expected(instrs, name)
  }

  lemma {:induction false} FindAppend(entries: seq<LabelInfo>, e: LabelInfo, name: string, i: nat)
    requires i <= |entries|
    ensures Find(entries + [e], name, i)
         == if Find(entries, name, i).Some? then Find(entries, name, i)
            else if e.name == name then Some(|entries|) else None
    decreases |entries| - i
  {
    if i < |entries| {
      assert (entries + [e])[i] == entries[i];
      FindAppend(entries, e, name, i + 1);
    }
  }

  /** Find looks at names only. */
  lemma {:induction false} FindNamesOnly(a: seq<LabelInfo>, b: seq<LabelInfo>, name: string, i: nat)
    requires |a| == |b| && i <= |a|
    requires forall k :: 0 <= k < |a| ==> a[k].name == b[k].name
    ensures Find(a, name, i) == Find(b, name, i)
    decreases |a| - i
  {
    if i < |a| {
      FindNamesOnly(a, b, name, i + 1);
    }
  }

  lemma LookupAppend(entries: seq<LabelInfo>, e: LabelInfo, name: string)
    ensures Lookup(entries + [e], name)
         == if Lookup(entries, name).None? && e.name == name then Some(e.state) else Lookup(entries, name)
  {
    FindAppend(entries, e, name, 0);
    if Find(entries, name, 0).Some? {
      assert (entries + [e])[Find(entries, name, 0).value] == entries[Find(entries, name, 0).value];
    }
  }

  lemma LookupUpdate(entries: seq<LabelInfo>, k: nat, st: LabelState, name: string)
    requires WellFormed(entries) && k < |entries|
    ensures Lookup(entries[k := LabelInfo(entries[k].name, st)], name)
         == if name == entries[k].name then Some(st) else Lookup(entries, name)
  {
    var entries' := entries[k := LabelInfo(entries[k].name, st)];
    FindNamesOnly(entries, entries', name, 0);
    if name == entries[k].name {
      assert Find(entries, name, 0) == Some(k);
    }
  }

  /**
   * How one instruction at offset off changes what is known about a label:
   * its first definition resolves it, a reference before that adds a site.
   */
  function Advance(known: Option<LabelState>, i: Instr, name: string, off: nat): Option<LabelState>
  {
    if known.Some? && known.value.Resolved? then known
    else if i.Mark? && i.target == name then Some(Resolved(off))
    else if IsRef(i) && i.target == name then
      (if known.Some? then Some(Pending(known.value.sites + [off + 1])) else Some(Pending([off + 1])))
    else known
  }

  lemma {:induction false} ExpectedAppend(instrs: seq<Instr>, i: Instr, name: string)
    ensures Expected(instrs + [i], name) == Advance(Expected(instrs, name), i, name, SizeOf(instrs))
  {
    DefsAppend(instrs, i);
    SitesAppend(instrs, i, name);
    if name !in Defs(instrs) && !(i.Mark? && i.target == name) {
      assert name !in Defs(instrs + [i]);
      if Sites(instrs, name) == [] {
        assert Expected(instrs, name) == None;
        if IsRef(i) && i.target == name {
          assert Sites(instrs + [i], name) == [SizeOf(instrs) + 1];
        } else {
          assert Sites(instrs + [i], name) == [];
        }
      } else {
        assert Sites(instrs, name) + [] == Sites(instrs, name);
      }
    }
  }

  /** The table after a step says what Advance says about every label. */
  ghost predicate Advanced(entries: seq<LabelInfo>, entries': seq<LabelInfo>, i: Instr, off: nat)
  {
    forall name :: Lookup(entries', name) == Advance(Lookup(entries, name), i, name, off)
  }

  /** A table step that follows Advance keeps the table truthful. */
  lemma ConsistentStep(instrs: seq<Instr>, i: Instr, entries: seq<LabelInfo>, entries': seq<LabelInfo>)
    requires Consistent(instrs, entries) && Advanced(entries, entries', i, SizeOf(instrs))
    ensures Consistent(instrs + [i], entries')
  {
    forall name ensures Lookup(entries', name) == Expected(instrs + [i], name) {
      ExpectedAppend(instrs, i, name);
      assert Lookup(entries, name) == Expected(instrs, name);
    }
  }

  /** An instruction that neither defines nor references a label changes no entry. */
  lemma PlainAdvances(entries: seq<LabelInfo>, i: Instr, off: nat)
    requires !i.Mark? && !IsRef(i)
    ensures Advanced(entries, entries, i, off)
  {
  }

  /** add_label: the first sight of a label is its definition. */
  lemma AddLabelAdvances(entries: seq<LabelInfo>, l: string, off: nat)
    requires Lookup(entries, l).None?
    ensures Advanced(entries, entries + [LabelInfo(l, Resolved(off))], Mark(l), off)
  {
    forall name ensures Lookup(entries + [LabelInfo(l, Resolved(off))], name) == Advance(Lookup(entries, name), Mark(l), name, off) {
      LookupAppend(entries, LabelInfo(l, Resolved(off)), name);
    }
  }

  /** The definition of a pending label resolves its entry. */
  lemma ResolveAdvances(entries: seq<LabelInfo>, k: nat, off: nat)
    requires WellFormed(entries) && k < |entries| && entries[k].state.Pending?
    ensures Advanced(entries, entries[k := LabelInfo(entries[k].name, Resolved(off))], Mark(entries[k].name), off)
  {
    var l := entries[k].name;
    forall name ensures Lookup(entries[k := LabelInfo(l, Resolved(off))], name) == Advance(Lookup(entries, name), Mark(l), name, off) {
      LookupUpdate(entries, k, Resolved(off), name);
      if name == l {
        LookupUpdate(entries, k, entries[k].state, name);
        assert entries[k := LabelInfo(l, entries[k].state)] == entries;
      }
    }
  }

  /** add_undef_label: the first sight of a label is a reference to it. */
  lemma AddUndefLabelAdvances(entries: seq<LabelInfo>, i: Instr, off: nat)
    requires IsRef(i) && Lookup(entries, i.target).None?
    ensures Advanced(entries, entries + [LabelInfo(i.target, Pending([off + 1]))], i, off)
  {
    forall name ensures Lookup(entries + [LabelInfo(i.target, Pending([off + 1]))], name) == Advance(Lookup(entries, name), i, name, off) {
      LookupAppend(entries, LabelInfo(i.target, Pending([off + 1])), name);
    }
  }

  /** A further reference to a pending label joins its list. */
  lemma AddSiteAdvances(entries: seq<LabelInfo>, i: Instr, k: nat, off: nat)
    requires WellFormed(entries) && IsRef(i)
    requires k < |entries| && entries[k].name == i.target && entries[k].state.Pending?
    ensures Advanced(entries, entries[k := LabelInfo(i.target, Pending(entries[k].state.sites + [off + 1]))], i, off)
  {
    var st := Pending(entries[k].state.sites + [off + 1]);
    forall name ensures Lookup(entries[k := LabelInfo(i.target, st)], name) == Advance(Lookup(entries, name), i, name, off) {
      LookupUpdate(entries, k, st, name);
      if name == i.target {
        LookupUpdate(entries, k, entries[k].state, name);
        assert entries[k := LabelInfo(i.target, entries[k].state)] == entries;
      }
    }
  }

  /** A reference to a label already defined leaves every entry as it is. */
  lemma ResolvedRefAdvances(entries: seq<LabelInfo>, i: Instr, off: nat)
    requires IsRef(i) && Lookup(entries, i.target).Some? && Lookup(entries, i.target).value.Resolved?
    ensures Advanced(entries, entries, i, off)
  {
  }

  /** In a table with distinct names, looking up an entry's name finds that entry. */
  lemma LookupEntry(entries: seq<LabelInfo>, k: nat)
    requires WellFormed(entries) && k < |entries|
    ensures Lookup(entries, entries[k].name) == Some(entries[k].state)
  {
    var r := Find(entries, entries[k].name, 0);
    assert r.Some?;
  }

  // ---------------------------------------------------------------------
  // Writing into the bytecode buffer

  /** Writes bs into the buffer from offset pos on. */
  method WriteBytes(bc: array<byte>, pos: nat, bs: seq<byte>)
    requires pos + |bs| <= bc.Length
    modifies bc
    ensures bc[..] == Write(old(bc[..]), pos, bs)
  {
    ghost var s := bc[..];
    for j := 0 to |bs|
      invariant bc[..] == s[..pos] + bs[..j] + s[pos + j..]
    {
      bc[pos + j] := bs[j];
      assert bs[..j + 1] == bs[..j] + [bs[j]];
    }
    assert bs[..|bs|] == bs;
  }

  /** The loop of process_label_define: the address a written at every pending site, in order. */
  method Backpatch(bc: array<byte>, sites: seq<nat>, a: u32)
    requires forall k :: 0 <= k < |sites| ==> sites[k] + WS_ADDR_SIZE <= bc.Length
    modifies bc
    ensures bc[..] == PatchAll(old(bc[..]), sites, a)
  {
    for j := 0 to |sites|
      invariant bc[..] == PatchAll(old(bc[..]), sites[..j], a)
    {
      WriteBytes(bc, sites[j], AddrBytes(a));
      assert sites[..j + 1][..j] == sites[..j];
    }
    assert sites[..|sites|] == sites;
  }

  /** Every pending site lies below n. */
  ghost predicate SitesBelow(entries: seq<LabelInfo>, n: nat)
  {
    forall k, j :: 0 <= k < |entries| && entries[k].state.Pending? && 0 <= j < |entries[k].state.sites| ==>
      entries[k].state.sites[j] + WS_ADDR_SIZE <= n
  }

  /**
   * process_label_define for a label defined at offset pos: a new label is
   * added resolved; a pending one has its sites patched and is resolved; a
   * second definition only changes nothing.
   */
  method ProcessLabelDefine(bc: array<byte>, table: LabelTable, l: string, pos: nat) returns (err: Option<CompileError>)
    requires table.Valid() && SitesBelow(table.entries, bc.Length)
    modifies bc, table
    ensures table.Valid()
    ensures err.Some? <==> old(Lookup(table.entries, l)).None? && old(|table.entries|) == MAX_N_LABEL
    ensures err.Some? ==> err.value == TooManyLabels && table.entries == old(table.entries) && bc[..] == old(bc[..])
    ensures err.None? ==> Advanced(old(table.entries), table.entries, Mark(l), pos)
    ensures err.None? ==> |table.entries| == old(|table.entries|) + if old(Lookup(table.entries, l)).None? then 1 else 0
    ensures err.None? ==> bc[..] == match old(Lookup(table.entries, l))
                                    case Some(Pending(sites)) => PatchAll(old(bc[..]), sites, Addr(pos))
                                    case _ => old(bc[..])
  {
    var found := table.SearchLabel(l);
    ghost var entries := table.entries;
    match found {
      case None =>
        var ok := table.AddLabel(l, pos);
        if ok {
          AddLabelAdvances(entries, l, pos);
          err := None;
        } else {
          err := Some(TooManyLabels);
        }
      case Some(k) =>
        err := None;
        LookupEntry(entries, k);
        var e := table.entries[k];
        if e.state.Pending? {
          Backpatch(bc, e.state.sites, Addr(pos));
          table.Resolve(k, pos);
          ResolveAdvances(entries, k, pos);
        }
        // otherwise a duplicate definition: reported, nothing changes
    }
  }

  /**
   * process_label_jump for a reference whose operand sits at offset pos: a
   * defined label's address is written there; otherwise the operand offset
   * is recorded, in a new entry or appended to the label's pending list.
   */
  method ProcessLabelJump(bc: array<byte>, table: LabelTable, i: Instr, pos: nat) returns (err: Option<CompileError>)
    requires table.Valid() && IsRef(i) && 1 <= pos && pos + WS_ADDR_SIZE <= bc.Length
    modifies bc, table
    ensures table.Valid()
    ensures err.Some? <==> match old(Lookup(table.entries, i.target))
                           case None => old(|table.entries|) == MAX_N_LABEL
                           case Some(Pending(sites)) => |sites| == UNDEF_LIST_SIZE
                           case Some(Resolved(_)) => false
    ensures err.Some? ==> table.entries == old(table.entries) && bc[..] == old(bc[..])
    ensures err == Some(TooManyLabels) <==> err.Some? && old(Lookup(table.entries, i.target)).None?
    ensures err.Some? ==> err.value == TooManyLabels || err.value == TooManyForwardRefs
    ensures err.None? ==> Advanced(old(table.entries), table.entries, i, pos - 1)
    ensures err.None? ==> |table.entries| == old(|table.entries|) + if old(Lookup(table.entries, i.target)).None? then 1 else 0
    ensures err.None? ==> bc[..] == match old(Lookup(table.entries, i.target))
                                    case Some(Resolved(a)) => Write(old(bc[..]), pos, AddrBytes(Addr(a)))
                                    case _ => old(bc[..])
  {
    var found := table.SearchLabel(i.target);
    ghost var entries := table.entries;
    match found {
      case None =>
        var ok := table.AddUndefLabel(i.target, pos);
        if ok {
          AddUndefLabelAdvances(entries, i, pos - 1);
          assert Advanced(entries, table.entries, i, pos - 1);
          err := None;
        } else {
          err := Some(TooManyLabels);
        }
      case Some(k) =>
        LookupEntry(entries, k);
        var e := table.entries[k];
        match e.state {
          case Pending(sites) =>
            var ok := table.AddSite(k, pos);
            if ok {
              AddSiteAdvances(entries, i, k, pos - 1);
              assert Advanced(entries, table.entries, i, pos - 1);
              err := None;
            } else {
              err := Some(TooManyForwardRefs);
            }
          case Resolved(a) =>
            ResolvedRefAdvances(entries, i, pos - 1);
            WriteBytes(bc, pos, AddrBytes(Addr(a)));
            err := None;
        }
    }
  }

  // ---------------------------------------------------------------------
  // One instruction's emission against the reference image

  /** Writing x then y right after it is writing x + y. */
  lemma WriteTwice(s: seq<byte>, pos: nat, x: seq<byte>, y: seq<byte>)
    requires pos + |x| + |y| <= |s|
    ensures Write(Write(s, pos, x), pos + |x|, y) == Write(s, pos, x + y)
  {
  }

  /** Writing x is writing x followed by the bytes already there. */
  lemma WriteKeeps(s: seq<byte>, pos: nat, x: seq<byte>, n: nat)
    requires pos + |x| + n <= |s|
    ensures Write(s, pos, x) == Write(s, pos, x + s[pos + |x|..pos + |x| + n])
  {
  }

  /** Patching sites below pos patches the prefix and keeps the rest. */
  lemma PatchPrefix(s: seq<byte>, pos: nat, sites: seq<nat>, a: u32)
    requires pos <= |s| && forall k :: 0 <= k < |sites| ==> sites[k] + WS_ADDR_SIZE <= pos
    ensures PatchAll(s, sites, a)[..pos] == PatchAll(s[..pos], sites, a)
    ensures PatchAll(s, sites, a)[pos..] == s[pos..]
  {
    assert s == s[..pos] + s[pos..];
    PatchAllAppend(s[..pos], s[pos..], sites, a);
  }

  /** A label definition emits nothing; the first one patches the label's pending sites. */
  lemma DefineImage(instrs: seq<Instr>, orig: seq<byte>, l: string)
    requires SizeOf(instrs) <= |orig|
    ensures SizeOf(instrs + [Mark(l)]) == SizeOf(instrs)
    ensures Image(instrs + [Mark(l)], Defs(instrs + [Mark(l)]), orig)
         == if l in Defs(instrs) then Image(instrs, Defs(instrs), orig)
            else PatchAll(Image(instrs, Defs(instrs), orig), Sites(instrs, l), Addr(SizeOf(instrs)))
  {
    DefsAppend(instrs, Mark(l));
    ImageAppend(instrs, Mark(l), Defs(instrs + [Mark(l)]), orig);
    assert Image(instrs, Defs(instrs + [Mark(l)]), orig) + [] == Image(instrs, Defs(instrs + [Mark(l)]), orig);
    if l !in Defs(instrs) {
      PatchImage(instrs, Defs(instrs), orig, l, SizeOf(instrs));
    }
  }

  /** Any other instruction appends its chunk to the image. */
  lemma ChunkImage(instrs: seq<Instr>, i: Instr, orig: seq<byte>, before: seq<byte>, after: seq<byte>)
    requires !i.Mark? && SizeOf(instrs) + Width(i) <= |orig| == |before|
    requires before[..SizeOf(instrs)] == Image(instrs, Defs(instrs), orig)
    requires before[SizeOf(instrs)..] == orig[SizeOf(instrs)..]
    requires after == Write(before, SizeOf(instrs), Chunk(i, SizeOf(instrs), Defs(instrs), orig))
    ensures SizeOf(instrs + [i]) == SizeOf(instrs) + Width(i)
    ensures after[..SizeOf(instrs + [i])] == Image(instrs + [i], Defs(instrs + [i]), orig)
    ensures after[SizeOf(instrs + [i])..] == orig[SizeOf(instrs + [i])..]
  {
    var n, d := SizeOf(instrs), Defs(instrs);
    var c := Chunk(i, n, d, orig);
    DefsAppend(instrs, i);
    ImageAppend(instrs, i, d, orig);
    assert after == before[..n] + c + before[n + |c|..];
    assert after[..n + |c|] == before[..n] + c;
    assert after[n + |c|..] == before[n..][|c|..];
  }

  /** How many distinct labels instrs defines or refers to: the entries its table holds. */
  ghost function LabelCount(instrs: seq<Instr>): nat
  {
    if instrs == [] then 0
    else
      var pre, i := instrs[..|instrs| - 1], instrs[|instrs| - 1];
      LabelCount(pre) + if (i.Mark? || IsRef(i)) && Expected(pre, i.target).None? then 1 else 0
  }

  lemma LabelCountAppend(instrs: seq<Instr>, i: Instr)
    ensures LabelCount(instrs + [i])
         == LabelCount(instrs) + if (i.Mark? || IsRef(i)) && Expected(instrs, i.target).None? then 1 else 0
  {
    assert (instrs + [i])[..|instrs|] == instrs;
  }

  /**
   * The label-table error that compiling i after instrs runs into: a label
   * not seen before while the table already holds MAX_N_LABEL labels, or a
   * reference to a pending label whose list already holds UNDEF_LIST_SIZE
   * sites.
   */
  ghost function TableError(instrs: seq<Instr>, i: Instr): Option<CompileError>
  {
    if !i.Mark? && !IsRef(i) then None
    else match Expected(instrs, i.target)
      case None => if LabelCount(instrs) == MAX_N_LABEL then Some(TooManyLabels) else None
      case Some(Resolved(_)) => None
      case Some(Pending(sites)) => if IsRef(i) && |sites| == UNDEF_LIST_SIZE then Some(TooManyForwardRefs) else None
  }

  /** A definition fails only on a new label that meets a full table. */
  lemma MarkTableError(instrs: seq<Instr>, i: Instr)
    requires i.Mark?
    ensures TableError(instrs, i)
         == if Expected(instrs, i.target).None? && LabelCount(instrs) == MAX_N_LABEL then Some(TooManyLabels) else None
  {
  }

  /** A reference fails on a new label that meets a full table, or on a pending label whose list is full. */
  lemma RefTableError(instrs: seq<Instr>, i: Instr)
    requires IsRef(i)
    ensures TableError(instrs, i).Some? <==> match Expected(instrs, i.target)
                                           case None => LabelCount(instrs) == MAX_N_LABEL
                                           case Some(Pending(sites)) => |sites| == UNDEF_LIST_SIZE
                                           case Some(Resolved(_)) => false
    ensures TableError(instrs, i) == Some(TooManyLabels) <==> TableError(instrs, i).Some? && Expected(instrs, i.target).None?
    ensures TableError(instrs, i).Some? ==> TableError(instrs, i).value == TooManyLabels || TableError(instrs, i).value == TooManyForwardRefs
  {
  }

  /** No instruction of instrs runs into a label-table error after the ones before it. */
  ghost predicate TableFits(instrs: seq<Instr>)
  {
    instrs == [] || (TableFits(instrs[..|instrs| - 1]) && TableError(instrs[..|instrs| - 1], instrs[|instrs| - 1]).None?)
  }

  lemma TableFitsAppend(instrs: seq<Instr>, i: Instr)
    ensures TableFits(instrs + [i]) <==> TableFits(instrs) && TableError(instrs, i).None?
  {
    assert (instrs + [i])[..|instrs|] == instrs;
  }

  /** Every instruction of a program that fits the table fits after the ones before it. */
  lemma {:induction false} TableFitsPrefix(all: seq<Instr>, k: nat)
    requires TableFits(all) && k < |all|
    ensures TableError(all[..k], all[k]).None?
    decreases |all|
  {
    var pre := all[..|all| - 1];
    if k < |pre| {
      TableFitsPrefix(pre, k);
      assert pre[..k] == all[..k] && pre[k] == all[k];
    }
  }

  /** A program that starts with instrs and then i, which meets a table error, does not fit the table. */
  lemma TableErrorBreaks(instrs: seq<Instr>, i: Instr, all: seq<Instr>)
    requires TableError(instrs, i).Some? && |instrs| < |all| && all[..|instrs| + 1] == instrs + [i]
    ensures !TableFits(all)
  {
    var k := |instrs|;
    assert all[..k] == (all[..k + 1])[..k] == instrs;
    assert all[k] == (all[..k + 1])[k] == i;
    if TableFits(all) {
      TableFitsPrefix(all, k);
    }
  }

  /** The bytes and the entries are exactly what compiling instrs produces. */
  ghost predicate Holds(bytes: seq<byte>, entries: seq<LabelInfo>, instrs: seq<Instr>, pos: nat, orig: seq<byte>)
  {
    && |orig| == |bytes| && pos == SizeOf(instrs) <= |bytes|
    && WellFormed(entries) && Consistent(instrs, entries) && |entries| == LabelCount(instrs)
    && bytes[..pos] == Image(instrs, Defs(instrs), orig) && bytes[pos..] == orig[pos..]
  }

  /** The buffer and the table hold exactly what compiling instrs produces. */
  ghost predicate Compiled(bc: array<byte>, table: LabelTable, instrs: seq<Instr>, pos: nat, orig: seq<byte>)
    reads bc, table
  {
    Holds(bc[..], table.entries, instrs, pos, orig)
  }

  lemma SitesBelowCompiled(instrs: seq<Instr>, entries: seq<LabelInfo>, n: nat)
    requires WellFormed(entries) && Consistent(instrs, entries) && SizeOf(instrs) <= n
    ensures SitesBelow(entries, n)
  {
    forall k, j | 0 <= k < |entries| && entries[k].state.Pending? && 0 <= j < |entries[k].state.sites|
      ensures entries[k].state.sites[j] + WS_ADDR_SIZE <= n
    {
      LookupEntry(entries, k);
      assert Lookup(entries, entries[k].name) == Expected(instrs, entries[k].name);
    }
  }

  /** Defining a label patches its pending sites, all below the definition, and keeps the rest. */
  lemma MarkImage(instrs: seq<Instr>, l: string, orig: seq<byte>, before: seq<byte>, after: seq<byte>)
    requires SizeOf(instrs) <= |orig| == |before|
    requires before[..SizeOf(instrs)] == Image(instrs, Defs(instrs), orig)
    requires before[SizeOf(instrs)..] == orig[SizeOf(instrs)..]
    requires after == if Expected(instrs, l).Some? && Expected(instrs, l).value.Pending?
                      then PatchAll(before, Expected(instrs, l).value.sites, Addr(SizeOf(instrs)))
                      else before
    ensures after[..SizeOf(instrs + [Mark(l)])] == Image(instrs + [Mark(l)], Defs(instrs + [Mark(l)]), orig)
    ensures after[SizeOf(instrs + [Mark(l)])..] == orig[SizeOf(instrs + [Mark(l)])..]
  {
    var pos := SizeOf(instrs);
    DefineImage(instrs, orig, l);
    if l !in Defs(instrs) {
      PatchPrefix(before, pos, Sites(instrs, l), Addr(pos));
    }
  }

  /** A definition that updates the table as Advance says keeps the bytes and the table truthful. */
  lemma MarkHolds(instrs: seq<Instr>, i: Instr, orig: seq<byte>, before: seq<byte>, after: seq<byte>,
                  entries: seq<LabelInfo>, entries': seq<LabelInfo>)
    requires Holds(before, entries, instrs, SizeOf(instrs), orig) && i.Mark?
    requires WellFormed(entries') && Advanced(entries, entries', i, SizeOf(instrs))
    requires |entries'| == |entries| + if Lookup(entries, i.target).None? then 1 else 0
    requires after == if Expected(instrs, i.target).Some? && Expected(instrs, i.target).value.Pending?
                      then PatchAll(before, Expected(instrs, i.target).value.sites, Addr(SizeOf(instrs)))
                      else before
    ensures Holds(after, entries', instrs + [i], SizeOf(instrs) + Width(i), orig)
  {
    assert Lookup(entries, i.target) == Expected(instrs, i.target);
    LabelCountAppend(instrs, i);
    ConsistentStep(instrs, i, entries, entries');
    MarkImage(instrs, i.target, orig, before, after);
  }

  /** A reference whose operand the table fills in or leaves pending keeps the bytes and the table truthful. */
  lemma RefHolds(instrs: seq<Instr>, i: Instr, orig: seq<byte>, before: seq<byte>, mid: seq<byte>, after: seq<byte>,
                 entries: seq<LabelInfo>, entries': seq<LabelInfo>)
    requires Holds(before, entries, instrs, SizeOf(instrs), orig) && IsRef(i) && SizeOf(instrs) + Width(i) <= |before|
    requires WellFormed(entries') && Advanced(entries, entries', i, SizeOf(instrs))
    requires |entries'| == |entries| + if Lookup(entries, i.target).None? then 1 else 0
    requires mid == Write(before, SizeOf(instrs), [OpOf(i)])
    requires after == if Lookup(entries, i.target).Some? && Lookup(entries, i.target).value.Resolved?
                      then Write(mid, SizeOf(instrs) + 1, AddrBytes(Addr(Lookup(entries, i.target).value.addr)))
                      else mid
    ensures Holds(after, entries', instrs + [i], SizeOf(instrs) + Width(i), orig)
  {
    assert Lookup(entries, i.target) == Expected(instrs, i.target);
    assert after == if i.target in Defs(instrs) then Write(mid, SizeOf(instrs) + 1, AddrBytes(Addr(Defs(instrs)[i.target]))) else mid;
    LabelCountAppend(instrs, i);
    ConsistentStep(instrs, i, entries, entries');
    RefChunkWritten(before, mid, after, SizeOf(instrs), i, Defs(instrs), orig);
    ChunkImage(instrs, i, orig, before, after);
  }

  /** An instruction without a label writes its chunk and leaves the table as it is. */
  lemma PlainHolds(instrs: seq<Instr>, i: Instr, orig: seq<byte>, before: seq<byte>, after: seq<byte>, entries: seq<LabelInfo>)
    requires Holds(before, entries, instrs, SizeOf(instrs), orig) && !i.Mark? && !IsRef(i) && SizeOf(instrs) + Width(i) <= |before|
    requires after == Write(before, SizeOf(instrs), Chunk(i, SizeOf(instrs), Defs(instrs), orig))
    ensures Holds(after, entries, instrs + [i], SizeOf(instrs) + Width(i), orig)
  {
    PlainAdvances(entries, i, SizeOf(instrs));
    ConsistentStep(instrs, i, entries, entries);
    LabelCountAppend(instrs, i);
    ChunkImage(instrs, i, orig, before, after);
  }

  /** A label definition: process_label_define at the current offset. */
  method EmitMark(bc: array<byte>, table: LabelTable, i: Instr, pos: nat, ghost instrs: seq<Instr>, ghost orig: seq<byte>)
    returns (err: Option<CompileError>)
    requires Compiled(bc, table, instrs, pos, orig) && i.Mark?
    modifies bc, table
    ensures err.None? ==> Compiled(bc, table, instrs + [i], pos + Width(i), orig)
    ensures err == TableError(instrs, i)
  {
    ghost var before := bc[..];
    ghost var entries := table.entries;
    assert Lookup(entries, i.target) == Expected(instrs, i.target);
    SitesBelowCompiled(instrs, entries, bc.Length);
    err := ProcessLabelDefine(bc, table, i.target, pos);
    MarkTableError(instrs, i);
    if err.None? {
      MarkHolds(instrs, i, orig, before, bc[..], entries, table.entries);
    }
  }

  /** A branch or call: the opcode, then process_label_jump for the operand. */
  method EmitRef(bc: array<byte>, table: LabelTable, i: Instr, pos: nat, ghost instrs: seq<Instr>, ghost orig: seq<byte>)
    returns (err: Option<CompileError>)
    requires Compiled(bc, table, instrs, pos, orig) && IsRef(i) && pos + Width(i) <= bc.Length
    modifies bc, table
    ensures err.None? ==> Compiled(bc, table, instrs + [i], pos + Width(i), orig)
    ensures err == TableError(instrs, i)
  {
    ghost var before := bc[..];
    ghost var entries := table.entries;
    assert Lookup(entries, i.target) == Expected(instrs, i.target);
    WriteBytes(bc, pos, [OpOf(i)]);
    ghost var mid := bc[..];
    err := ProcessLabelJump(bc, table, i, pos + 1);
    RefTableError(instrs, i);
    if err.None? {
      ghost var found := Lookup(entries, i.target);
      assert bc[..] == if found.Some? && found.value.Resolved? then Write(mid, pos + 1, AddrBytes(Addr(found.value.addr))) else mid;
      RefHolds(instrs, i, orig, before, mid, bc[..], entries, table.entries);
    }
  }

  /** The opcode byte and then the operand process_label_jump leaves make up the reference's chunk. */
  lemma RefChunkWritten(before: seq<byte>, mid: seq<byte>, after: seq<byte>, pos: nat, i: Instr, d: map<string, nat>, orig: seq<byte>)
    requires IsRef(i) && pos + Width(i) <= |orig| == |before|
    requires before[pos..] == orig[pos..]
    requires mid == Write(before, pos, [OpOf(i)])
    requires after == if i.target in d then Write(mid, pos + 1, AddrBytes(Addr(d[i.target]))) else mid
    ensures after == Write(before, pos, Chunk(i, pos, d, orig))
  {
    var c := Chunk(i, pos, d, orig);
    assert c == [OpOf(i)] + Target(i.target, pos, d, orig);
    if i.target in d {
      WriteTwice(before, pos, [OpOf(i)], AddrBytes(Addr(d[i.target])));
      assert c == [OpOf(i)] + AddrBytes(Addr(d[i.target]));
    } else {
      WriteKeeps(before, pos, [OpOf(i)], WS_ADDR_SIZE);
      assert before[pos + 1..pos + 1 + WS_ADDR_SIZE] == orig[pos + 1..pos + 1 + WS_ADDR_SIZE];
      assert c == [OpOf(i)] + before[pos + 1..pos + 1 + WS_ADDR_SIZE];
    }
  }

  /** Any other instruction: its opcode and number operand, or nothing at all. */
  method EmitPlain(bc: array<byte>, table: LabelTable, i: Instr, pos: nat, ghost instrs: seq<Instr>, ghost orig: seq<byte>)
    requires Compiled(bc, table, instrs, pos, orig) && !i.Mark? && !IsRef(i) && pos + Width(i) <= bc.Length
    modifies bc
    ensures Compiled(bc, table, instrs + [i], pos + Width(i), orig)
  {
    ghost var before := bc[..];
    if HasNumber(i) {
      WriteBytes(bc, pos, [OpOf(i)] + IntBytes(NumberOf(i)));
    } else if !Silent(i) {
      WriteBytes(bc, pos, [OpOf(i)]);
    } else {
      assert Write(before, pos, []) == before;
    }
    PlainHolds(instrs, i, orig, before, bc[..], table.entries);
  }

  /** The dispatch of gen_*_code to the emission of one decoded instruction. */
  method Emit(bc: array<byte>, table: LabelTable, i: Instr, pos: nat, ghost instrs: seq<Instr>, ghost orig: seq<byte>)
    returns (err: Option<CompileError>)
    requires Compiled(bc, table, instrs, pos, orig) && pos + Width(i) <= bc.Length
    modifies bc, table
    ensures err.None? ==> Compiled(bc, table, instrs + [i], pos + Width(i), orig)
    ensures err == TableError(instrs, i)
  {
    if i.Mark? {
      err := EmitMark(bc, table, i, pos, instrs, orig);
    } else if IsRef(i) {
      err := EmitRef(bc, table, i, pos, instrs, orig);
    } else {
      EmitPlain(bc, table, i, pos, instrs, orig);
      err := None;
    }
  }

  // ---------------------------------------------------------------------
  // compile

  /** The decoded instructions with a prefix in front, or the same error. */
  function Prepend(instrs: seq<Instr>, r: Result<seq<Instr>, LexError>): (r': Result<seq<Instr>, LexError>)
    ensures r'.Success? <==> r.Success?
  {
    match r
    case Success(rest) => Success(instrs + rest)
    case Failure(e) => Failure(e)
  }

  /** all is what decoding from token i on yields, with instrs decoded before it. */
  ghost predicate Remains(code: seq<Token>, i: nat, instrs: seq<Instr>, all: Result<seq<Instr>, LexError>)
  {
    all == Prepend(instrs, Program(code, i))
  }

  lemma ProgramStep(code: seq<Token>, i: nat, instrs: seq<Instr>, lx: Lexeme<Instr>, all: Result<seq<Instr>, LexError>)
    requires i < |code| && DecodeInstr(code, i) == Success(lx)
    requires Remains(code, i, instrs, all)
    ensures Remains(code, lx.last + 1, instrs + [lx.value], all)
  {
    var rest := Program(code, lx.last + 1);
    if rest.Success? {
      assert instrs + ([lx.value] + rest.value) == instrs + [lx.value] + rest.value;
    }
  }

  /** An instruction that does not fit means the whole program does not fit. */
  lemma DoesNotFit(code: seq<Token>, i: nat, instrs: seq<Instr>, n: nat, all: Result<seq<Instr>, LexError>)
    requires i < |code| && DecodeInstr(code, i).Success?
    requires Remains(code, i, instrs, all)
    requires SizeOf(instrs) + Width(DecodeInstr(code, i).value.value) > n
    ensures all.Success? ==> SizeOf(all.value) > n
  {
    if all.Success? {
      var ins := DecodeInstr(code, i).value.value;
      ProgramStep(code, i, instrs, DecodeInstr(code, i).value, all);
      assert all.value[..|instrs| + 1] == instrs + [ins];
      SizeOfAppend(instrs, ins);
      SizeOfPrefix(all.value, |instrs| + 1);
    }
  }

  /** Emits the instruction decoded at token i and says what that means for the whole program. */
  method EmitDecoded(code: seq<Token>, bc: array<byte>, table: LabelTable, i: nat, lx: Lexeme<Instr>, pos: nat,
                     ghost instrs: seq<Instr>, ghost orig: seq<byte>, ghost all: Result<seq<Instr>, LexError>)
    returns (err: Option<CompileError>, i': nat, pos': nat, ghost instrs': seq<Instr>)
    requires i < |code| && DecodeInstr(code, i) == Success(lx)
    requires Compiled(bc, table, instrs, pos, orig) && TableFits(instrs)
    requires Remains(code, i, instrs, all)
    modifies bc, table
    ensures err.None? ==> i < i' <= |code| + 1 && Compiled(bc, table, instrs', pos', orig) && TableFits(instrs')
    ensures err.None? ==> Remains(code, i', instrs', all)
    ensures err.Some? ==> Stops(err.value, all, bc.Length)
  {
    err := EmitFitting(bc, table, lx.value, pos, instrs, orig);
    i', pos', instrs' := lx.last + 1, pos + Width(lx.value), instrs + [lx.value];
    StepOutcome(code, i, instrs, lx, all, pos, bc.Length, err, i', instrs');
  }

  /**
   * One pass of compile's loop: decodes the instruction at token i and
   * emits it at pos, or reports why compiling stops there.
   */
  method CompileStep(code: seq<Token>, bc: array<byte>, table: LabelTable, i: nat, pos: nat,
                     ghost instrs: seq<Instr>, ghost orig: seq<byte>, ghost all: Result<seq<Instr>, LexError>)
    returns (err: Option<CompileError>, i': nat, pos': nat, ghost instrs': seq<Instr>)
    requires i < |code| && Compiled(bc, table, instrs, pos, orig) && TableFits(instrs)
    requires Remains(code, i, instrs, all)
    modifies bc, table
    ensures err.None? ==> i < i' <= |code| + 1 && Compiled(bc, table, instrs', pos', orig) && TableFits(instrs')
    ensures err.None? ==> Remains(code, i', instrs', all)
    ensures err.Some? ==> Stops(err.value, all, bc.Length)
  {
    var d := DecodeInstr(code, i);
    if d.Failure? {
      LexFails(code, i, instrs, all);
      return Some(Lex(d.error)), i, pos, instrs;
    }
    err, i', pos', instrs' := EmitDecoded(code, bc, table, i, d.value, pos, instrs, orig, all);
  }

  /**
   * What an error that stops compiling says about the whole program: a
   * lexing error is the program's own; a full buffer means the program does
   * not fit it; a table error means the program does not fit the table.
   */
  ghost predicate Stops(err: CompileError, all: Result<seq<Instr>, LexError>, n: nat)
  {
    match err
    case Lex(e) => all == Failure(e)
    case BytecodeFull => all.Success? ==> SizeOf(all.value) > n
    case _ => all.Success? ==> !TableFits(all.value)
  }

  /** No error stops a program that lexes, fits the buffer and fits the table. */
  lemma StopsOnlyWhatDoesNotFit(err: CompileError, all: Result<seq<Instr>, LexError>, n: nat)
    requires Stops(err, all, n)
    ensures !(all.Success? && SizeOf(all.value) <= n && TableFits(all.value))
  {
  }

  /** An instruction that meets a table error means the whole program does not fit the table. */
  lemma TableErrorEndsFit(code: seq<Token>, i: nat, instrs: seq<Instr>, lx: Lexeme<Instr>, all: Result<seq<Instr>, LexError>)
    requires i < |code| && DecodeInstr(code, i) == Success(lx) && TableError(instrs, lx.value).Some?
    requires Remains(code, i, instrs, all)
    ensures all.Success? ==> !TableFits(all.value)
  {
    if all.Success? {
      ProgramStep(code, i, instrs, lx, all);
      assert all.value[..|instrs| + 1] == instrs + [lx.value];
      TableErrorBreaks(instrs, lx.value, all.value);
    }
  }

  /** An instruction the lexer rejects ends the program with that error. */
  lemma LexFails(code: seq<Token>, i: nat, instrs: seq<Instr>, all: Result<seq<Instr>, LexError>)
    requires i < |code| && DecodeInstr(code, i).Failure?
    requires Remains(code, i, instrs, all)
    ensures all == Failure(DecodeInstr(code, i).error)
  {
  }

  /**
   * What emitting one decoded instruction means for the whole program: the
   * error it reports stops a program that does not fit, and its success
   * leaves the rest of the program to compile after a prefix that fits.
   */
  lemma StepOutcome(code: seq<Token>, i: nat, instrs: seq<Instr>, lx: Lexeme<Instr>, all: Result<seq<Instr>, LexError>,
                    pos: nat, n: nat, err: Option<CompileError>, next: nat, instrs': seq<Instr>)
    requires i < |code| && DecodeInstr(code, i) == Success(lx) && TableFits(instrs)
    requires Remains(code, i, instrs, all) && pos == SizeOf(instrs)
    requires err == if pos + Width(lx.value) > n then Some(BytecodeFull) else TableError(instrs, lx.value)
    requires next == lx.last + 1 && instrs' == instrs + [lx.value]
    ensures err.Some? ==> Stops(err.value, all, n)
    ensures err.None? ==> Remains(code, next, instrs', all) && TableFits(instrs')
  {
    if err == Some(BytecodeFull) {
      DoesNotFit(code, i, instrs, n, all);
    } else if err.Some? {
      TableErrorEndsFit(code, i, instrs, lx, all);
    } else {
      ProgramStep(code, i, instrs, lx, all);
      TableFitsAppend(instrs, lx.value);
    }
  }

  /** Emits i at pos when its bytes fit the buffer; reports BytecodeFull when they do not. */
  method EmitFitting(bc: array<byte>, table: LabelTable, i: Instr, pos: nat, ghost instrs: seq<Instr>, ghost orig: seq<byte>)
    returns (err: Option<CompileError>)
    requires Compiled(bc, table, instrs, pos, orig)
    modifies bc, table
    ensures err.None? ==> Compiled(bc, table, instrs + [i], pos + Width(i), orig)
    ensures err == if pos + Width(i) > bc.Length then Some(BytecodeFull) else TableError(instrs, i)
  {
    if pos + Width(i) > bc.Length {
      return Some(BytecodeFull);
    }
    err := Emit(bc, table, i, pos, instrs, orig);
  }

  /**
   * compile: decodes the tokens one instruction at a time and emits each
   * into the buffer. On success the buffer's first bytes are the reference
   * image of the decoded program over the buffer's former contents, and the
   * rest is untouched.
   */
  method Compile(code: seq<Token>, bc: array<byte>) returns (r: Result<nat, CompileError>)
    modifies bc
    ensures r.Success? ==> Program(code, 0).Success? && r.value == SizeOf(Program(code, 0).value) <= bc.Length
    ensures r.Success? ==> bc[..r.value] == Image(Program(code, 0).value, Defs(Program(code, 0).value), old(bc[..]))
    ensures r.Success? ==> bc[r.value..] == old(bc[..])[r.value..]
    ensures Program(code, 0).Failure? ==> r.Failure?
    ensures r.Failure? && r.error.Lex? ==> Program(code, 0) == Failure(r.error.error)
    ensures r == Failure(BytecodeFull) && Program(code, 0).Success? ==> SizeOf(Program(code, 0).value) > bc.Length
    ensures (r == Failure(TooManyLabels) || r == Failure(TooManyForwardRefs)) && Program(code, 0).Success?
            ==> !TableFits(Program(code, 0).value)
    ensures Program(code, 0).Success? && SizeOf(Program(code, 0).value) <= bc.Length && TableFits(Program(code, 0).value)
            ==> r.Success?
  {
    var table := new LabelTable();
    ghost var orig := bc[..];
    ghost var instrs: seq<Instr> := [];
    ghost var all := Program(code, 0);
    var i: nat := 0;
    var pos: nat := 0;
    assert Remains(code, 0, [], all) by {
      if all.Success? {
        assert [] + all.value == all.value;
      }
    }
    while i < |code|
      invariant i <= |code| + 1
      invariant Compiled(bc, table, instrs, pos, orig) && TableFits(instrs)
      invariant Remains(code, i, instrs, all)
      decreases |code| + 1 - i
    {
      var err;
      err, i, pos, instrs := CompileStep(code, bc, table, i, pos, instrs, orig, all);
      if err.Some? {
        StopsOnlyWhatDoesNotFit(err.value, all, bc.Length);
        return Failure(err.value);
      }
    }
    assert instrs + [] == instrs;
    return Success(pos);
  }
}
