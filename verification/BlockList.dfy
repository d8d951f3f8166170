/**
 The intrusive list of a function's blocks: erase, move and insert relink nodes in place, and
 whether a block is on the list is decided in constant time.
 */
module BlockList {
  // ---------------------------------------------------------------------------
  // The list as a sequence

  predicate NoRepeats<T(==)>(s: seq<T>) {
    forall i, j :: 0 <= i < j < |s| ==> s[i] != s[j]
  }

  function Without<T(==)>(s: seq<T>, x: T): seq<T> {
    if s == [] then [] else if s[0] == x then s[1..] else [s[0]] + Without(s[1..], x)
  }

  function IndexOf<T(==)>(s: seq<T>, x: T): (i: nat)
    requires x in s
    ensures i < |s| && s[i] == x
  {
    if s[0] == x then 0 else 1 + IndexOf(s[1..], x)
  }

  /** x put behind the element at position i - 1. */
  function InsertAt<T>(s: seq<T>, i: nat, x: T): seq<T>
    requires i <= |s|
  {
    s[..i] + [x] + s[i..]
  }

  lemma {:induction false} WithoutIs<T>(s: seq<T>, i: nat)
    requires NoRepeats(s) && i < |s|
    ensures Without(s, s[i]) == s[..i] + s[i + 1..] && IndexOf(s, s[i]) == i
  {
    if i > 0 {
      var t := s[1..];
      assert forall k :: 0 <= k < |t| ==> t[k] == s[k + 1];
      WithoutIs(t, i - 1);
      assert t[i - 1] == s[i] && s[0] != s[i];
      assert [s[0]] + t[..i - 1] == s[..i] && t[i..] == s[i + 1..];
      assert [s[0]] + (t[..i - 1] + t[i..]) == s[..i] + s[i + 1..];
    }
  }

  class Block {
    var id: nat
    var next: Block?
    var owner: Function?
    /** Block ids among the operands of the instructions. */
    var refs: seq<nat>

    constructor ()
      ensures next == null && owner == null && refs == []
    {
      id, next, owner, refs := 0xFFFF_FFFF, null, null, [];
    }
  }

  function After(list: seq<Block>, i: nat): Block? {
    if i + 1 < |list| then list[i + 1] else null
  }

  function First(list: seq<Block>): Block? {
    if list == [] then null else list[0]
  }

  function Last(list: seq<Block>): Block? {
    if list == [] then null else list[|list| - 1]
  }

  class Function {
    var first: Block?
    var last: Block?
    var numBlocks: nat
    var isDecl: bool
    /** The blocks reachable from first, and all blocks bound to this function. */
    ghost var list: seq<Block>
    ghost var bound: set<Block>

    /** The nodes from first to last are the list. */
    ghost predicate OnList()
      reads this`first, this`last, this`list, this`bound, bound`next, bound`owner
    {
      && NoRepeats(list)
      && (forall b :: b in list ==> b in bound)
      && first == First(list) && last == Last(list)
      && (forall i :: 0 <= i < |list| ==> list[i].next == After(list, i))
      && (forall b :: b in bound ==> b.owner == this)
    }

    /** A bound block off the list has no successor. */
    ghost predicate Linked()
      reads this`first, this`last, this`list, this`bound, bound`next, bound`owner
    {
      OnList() && forall b :: b in bound && b !in list ==> b.next == null
    }

    /** The ids of the bound blocks are 0 .. numBlocks - 1, each once. */
    ghost predicate Numbered()
      reads this`numBlocks, this`bound, bound`id
    {
      && |bound| == numBlocks
      && (forall b :: b in bound ==> b.id < numBlocks)
      && (forall b, c :: b in bound && c in bound && b != c ==> b.id != c.id)
    }

    ghost predicate Valid()
      reads this, bound`next, bound`owner, bound`id
    {
      Linked() && Numbered()
    }

    constructor ()
      ensures Valid() && list == [] && bound == {} && numBlocks == 0
    {
      first, last, numBlocks, isDecl := null, null, 0, true;
      list, bound := [], {};
    }

    /** The constant-time test agrees with a scan of the list. */
    method Attached(b: Block) returns (r: bool)
      requires Linked() && b in bound
      ensures r <==> b in list
    {
      r := last == b || b.next != null;
      assert last != null ==> list[|list| - 1] in list;
      if b in list {
        ghost var i := IndexOf(list, b);
        assert i + 1 == |list| ==> last == b;
        assert i + 1 < |list| ==> b.next == list[i + 1];
      }
    }

    /** lr_find_prev_block */
    method FindPrev(target: Block) returns (prev: Block?)
      requires OnList()
      ensures target !in list || target == list[0] ==> prev == null
      ensures target in list && target != list[0] ==>
                IndexOf(list, target) > 0 && prev == list[IndexOf(list, target) - 1]
    {
      if first == target {
        return null;
      }
      prev := first;
      ghost var i := 0;
      while prev != null && prev.next != null
        invariant OnList()
        invariant prev == null <==> list == []
        invariant prev != null ==> i < |list| && prev == list[i]
        invariant prev != null ==> forall k :: 0 <= k <= i ==> list[k] != target
        decreases |list| - i
      {
        assert list[i].next == After(list, i);
        if prev.next == target {
          WithoutIs(list, i + 1);
          return;
        }
        prev := prev.next;
        i := i + 1;
      }
      assert prev != null ==> list[i].next == After(list, i);
      assert forall k :: 0 <= k < |list| ==> list[k] != target;
      prev := null;
    }

    method Length() returns (n: nat)
      requires Linked()
      ensures n == |list|
    {
      n := 0;
      var b := first;
      while b != null
        invariant Linked()
        invariant n <= |list| && b == if n < |list| then list[n] else null
        decreases |list| - n
      {
        assert list[n].next == After(list, n);
        b := b.next;
        n := n + 1;
      }
    }

    /** Take a block off the list; its own next pointer is left as it is. */
    method Unlink(block: Block) returns (ok: bool)
      requires Linked() && block in bound
      modifies this`first, this`last, this`list, list`next
      ensures ok <==> block in old(list)
      ensures OnList() && list == Without(old(list), block) && block.next == old(block.next)
      ensures !ok ==> list == old(list)
      ensures block !in list && (forall b :: b in list <==> b in old(list) && b != block)
      ensures forall b :: b in bound && b !in old(list) ==> b.next == old(b.next)
    {
      hide NoRepeats, Without, IndexOf, First, Last, After;
      var prev := FindPrev(block);
      HeadOf(list);
      if prev == null && first != block {
        NotThere(list, block);
        return false;
      }
      ghost var i, was := IndexOf(list, block), list;
      WithoutIs(was, i);
      FirstIs(was, i);
      RemovedFacts(was, i);
      RemovedChain(was, i);
      if prev != null {
        prev.next := block.next;
      } else {
        first := block.next;
      }
      if last == block {
        last := prev;
      }
      list := was[..i] + was[i + 1..];
      forall k | 0 <= k < |list| ensures list[k].next == After(list, k) {
        assert list[k] == was[if k < i then k else k + 1];
      }
      assert forall k :: 0 <= k < |list| ==> list[k] in list;
      ok := true;
    }

    /** Put a block that is off the list behind another one; only if that one is on the list,
        so is the block. */
    method LinkBehind(block: Block, anchor: Block)
      requires OnList() && block in bound && block !in list && anchor in bound && anchor != block
      requires forall b :: b in bound && b !in list && b != block ==> b.next == null
      modifies this`last, this`list, block`next, anchor`next
      ensures anchor in old(list) ==> Linked() && list == InsertAt(old(list), IndexOf(old(list), anchor) + 1, block)
      ensures anchor !in old(list) ==> OnList() && list == old(list) && anchor.next == block && block.next == null
    {
      hide NoRepeats, First, Last, After, InsertAt, IndexOf;
      ghost var was := list;
      LastIs(was);
      if anchor in was {
        ghost var i := IndexOf(was, anchor);
        IndexFound(was, anchor);
        InsertedFacts(was, i + 1, block);
        InsertedEnds(was, i + 1, block);
        FirstIs(was, i);
      }
      block.next := anchor.next;
      anchor.next := block;
      if last == anchor {
        last := block;
      }
      if anchor in was {
        ghost var i := IndexOf(was, anchor);
        ghost var r: seq<Block> := InsertAt<Block>(was, i + 1, block);
        list := r;
        assert was[i] in was && forall k :: 0 <= k < |r| ==> r[k] in r;
        forall k | 0 <= k < |r| ensures r[k].next == After(r, k) {
          InsertedAt(was, i + 1, block, k);
        }
      } else {
        assert forall k :: 0 <= k < |was| ==> was[k] in was;
      }
    }

    /** lr_llvm_compat_block_move_after.  Success leaves the list intact exactly if the anchor
        is on it; otherwise the block hangs behind the anchor and off the list. */
    method MoveAfter(block: Block, anchor: Block) returns (ok: bool)
      requires Linked() && block in bound && (anchor.owner == this ==> anchor in bound)
      modifies this`first, this`last, this`list, bound`next
      ensures ok <==> old(anchor.owner) == this && block in old(list) && block != anchor && old(anchor.next) != block
      ensures !ok ==> Linked() && list == old(list)
      ensures ok ==> (Linked() <==> anchor in old(list))
      ensures ok && anchor in old(list) ==> anchor in Without(old(list), block)
      ensures ok && anchor in old(list) ==>
        list == InsertAt(Without(old(list), block), IndexOf(Without(old(list), block), anchor) + 1, block)
      ensures ok && anchor !in old(list) ==>
        OnList() && list == Without(old(list), block) && block !in list && anchor.next == block && block.next == null
    {
      hide NoRepeats, First, Last, After, Without, IndexOf, InsertAt;
      if block == anchor || anchor.owner != this || anchor.next == block {
        return false;
      }
      ok := Unlink(block);
      if !ok {
        return false;
      }
      LinkBehind(block, anchor);
    }

    /** lr_llvm_compat_block_move_before: nothing is done, and no success reported, when the
        block is already there.  Success leaves the list intact exactly if the anchor is on it;
        otherwise the function starts with the block and the anchor, and the rest is lost. */
    method MoveBefore(block: Block, anchor: Block) returns (ok: bool)
      requires Linked() && block in bound && (anchor.owner == this ==> anchor in bound)
      modifies this`first, this`last, this`list, bound`next
      ensures ok <==> old(anchor.owner) == this && block in old(list) && block != anchor && old(block.next) != anchor
      ensures !ok ==> Linked() && list == old(list)
      ensures ok ==> (Linked() <==> anchor in old(list))
      ensures ok && anchor in old(list) ==> anchor in Without(old(list), block)
      ensures ok && anchor in old(list) ==>
        list == InsertAt(Without(old(list), block), IndexOf(Without(old(list), block), anchor), block)
      ensures ok && anchor !in old(list) ==>
        && first == block && block.next == anchor && anchor.next == null
        && last == Last(Without(old(list), block)) && last != anchor
    {
      hide NoRepeats, First, Last, After, Without, IndexOf, InsertAt;
      if block == anchor || anchor.owner != this || block.next == anchor {
        return false;
      }
      ok := Unlink(block);
      if !ok {
        return false;
      }
      LinkBefore(block, anchor);
    }

    /** Put a block that is off the list before another one. */
    method LinkBefore(block: Block, anchor: Block)
      requires OnList() && block in bound && block !in list && anchor in bound && anchor != block
      requires forall b :: b in bound && b !in list && b != block ==> b.next == null
      modifies this`first, this`list, block`next, list`next
      ensures anchor in old(list) ==> Linked() && list == InsertAt(old(list), IndexOf(old(list), anchor), block)
      ensures anchor !in old(list) ==>
        && !OnList() && first == block && block.next == anchor && anchor.next == null
        && last == Last(old(list)) && last != anchor
    {
      hide NoRepeats, First, Last, After, IndexOf, InsertAt;
      ghost var was := list;
      LastIs(was);
      var anchorPrev := FindPrev(anchor);
      if anchor in was {
        ghost var i := IndexOf(was, anchor);
        IndexFound(was, anchor);
        FirstIs(was, i);
        IndexUnique(was, i);
        assert anchorPrev == null <==> i == 0;
        assert i > 0 ==> anchorPrev == was[i - 1] && was[i - 1] in was;
      }
      if anchorPrev != null {
        anchorPrev.next := block;
      } else {
        first := block;
      }
      block.next := anchor;
      if anchor in was {
        ghost var i := IndexOf(was, anchor);
        ghost var r: seq<Block> := InsertAt<Block>(was, i, block);
        list := r;
        InsertedFacts(was, i, block);
        InsertedEnds(was, i, block);
        assert was[i] in was && forall k :: 0 <= k < |r| ==> r[k] in r;
        forall k | 0 <= k < |r| ensures r[k].next == After(r, k) {
          InsertedAt(was, i, block, k);
        }
      } else {
        HeadOf(was);
      }
    }

    // -------------------------------------------------------------------------
    // Binding and inserting

    /** lc_block_bind_func: a block without a function gets this one and the next id. */
    method Bind(block: Block) returns (ok: bool)
      requires Linked() && (block.owner == this ==> block in bound)
      requires block.owner == null ==> block !in bound && block.next == null
      modifies this`numBlocks, this`bound, block`owner, block`id
      ensures Linked() && list == old(list) && (old(Numbered()) ==> Numbered())
      ensures ok <==> old(block.owner) == null || old(block.owner) == this
      ensures bound == if old(block.owner) == null then old(bound) + {block} else old(bound)
      ensures old(block.owner) == null ==> block.id == old(numBlocks) && numBlocks == old(numBlocks) + 1
      ensures ok ==> block.owner == this && block in bound
      ensures old(block.owner) != null ==> block.owner == old(block.owner) && block.id == old(block.id)
    {
      hide NoRepeats, First, Last, After;
      if block.owner == this {
        return true;
      }
      if block.owner != null {
        return false;
      }
      assert block !in list && forall b :: b in bound ==> b != block;
      block.owner := this;
      block.id := numBlocks;
      numBlocks := numBlocks + 1;
      bound := bound + {block};
      ok := true;
    }

    /** The new tail of the list. */
    method Append(block: Block)
      requires Linked() && block in bound && block !in list
      modifies this`first, this`last, this`list, this`isDecl, bound`next
      ensures old(Numbered()) ==> Numbered()
      ensures Linked() && list == old(list) + [block] && last == block && block.next == null
    {
      hide NoRepeats, First, Last, After, InsertAt;
      AtEnd(list, block);
      block.next := null;
      if first == null {
        HeadOf(list);
        first := block;
        isDecl := false;
        last := block;
        list := [block];
        OneBlock(block);
      } else {
        HeadOf(list);
        LastIs(list);
        IndexOfLast(list);
        LinkBehind(block, last);
      }
      LastIs(list);
      LastIsLast(list);
      assert list[|list| - 1].next == After(list, |list| - 1);
    }

    /** before is bound to this function but not on the list, and block is, or is put there. */
    ghost predicate Breaks(mod: Module, block: Block, before: Block?)
      reads this`list, mod, before
    {
      && before != null && before != block && before.owner == this && before !in list
      && (block in list || block in mod.detached)
    }

    /** block stands directly before the other one. */
    ghost predicate StandsBefore(block: Block, before: Block)
      reads this`list, block`next
    {
      block in list && block.next == before
    }

    /** lr_llvm_compat_function_insert_block.  A block that is neither on the list nor among
        the detached ones of the module is not linked. */
    method Insert(mod: Module, block: Block, before: Block?) returns (ok: bool)
      requires Linked() && (block.owner == this ==> block in bound)
      requires block.owner == null ==> block !in bound && block.next == null
      requires before != null && before.owner == this ==> before in bound
      modifies this`first, this`last, this`list, this`isDecl, this`numBlocks, this`bound
      modifies bound`next, block`next, block`owner, block`id, mod
      ensures old(Numbered()) ==> Numbered()
      ensures old(block.owner) != null && old(block.owner) != this ==> !ok && Linked() && list == old(list)
      ensures old(block.owner) == null || old(block.owner) == this ==>
        && (Linked() <==> !old(Breaks(mod, block, before)))
        && (Linked() ==> list == Inserted(old(list), block, before, block in old(mod.detached)))
        && (ok <==> || before == null || before == block
                    || (&& old(before.owner) == this && (block in old(list) || block in old(mod.detached))
                        && !old(StandsBefore(block, before))))
        && (old(Breaks(mod, block, before)) ==> ok && first == block && block.next == before && before.next == null)
    {
      hide NoRepeats, First, Last, After, InsertAt, Without, IndexOf, Placed, Numbered, OnList;
      ghost var was := list;
      NotOwned(before);
      NextIsListed(block);
      if block.owner == null {
        var bindOk := Bind(block);
      }
      if block.owner != this {
        return false;
      }
      var attached := Attached(block);
      if !attached && block in mod.detached {
        mod.detached := mod.detached - {block};
        Append(block);
      }
      ok := Place(block, before, attached);
    }

    /** Bring a block to its place, if it is on the list. */
    method Place(block: Block, before: Block?, attached: bool) returns (ok: bool)
      requires Linked() && block in bound
      requires before != null && before.owner == this ==> before in bound
      requires before != null && before.owner != this ==> before !in list
      requires if attached then block in list else block !in list || last == block
      modifies this`first, this`last, this`list, bound`next
      ensures old(Numbered()) ==> Numbered()
      ensures Linked() <==>
        before == null || before == block || before.owner != this || before in old(list) || block !in old(list)
      ensures Linked() ==> list == Placed(old(list), block, before)
      ensures ok <==> || before == null || before == block
                      || (before.owner == this && block in old(list) && old(block.next) != before)
      ensures !Linked() ==> first == block && block.next == before && before.next == null
    {
      hide NoRepeats, First, Last, After, InsertAt, Without, IndexOf;
      AlreadyLast(list, block);
      LastIs(list);
      if before == null || before == block {
        if before == null && attached && last != null && last != block {
          LastIsLast(list);
          MovedToEnd(list, block);
          assert list[|list| - 1].next == After(list, |list| - 1);
          var moved := MoveAfter(block, last);
        }
        return true;
      }
      if before.owner != this {
        return false;
      }
      if before in list {
        NextIs(list, block, before);
      }
      if block in list {
        IndexFound(list, block);
        NextOnList(list, IndexOf(list, block));
        assert list[IndexOf(list, block)].next == After(list, IndexOf(list, block));
      }
      ok := MoveBefore(block, before);
    }

    lemma {:induction false} NextIsListed(b: Block)
      requires Linked()
      ensures b in list && b.next != null ==> b.next in list
    {
      if b in list {
        var i := IndexOf(list, b);
        assert list[i].next == After(list, i);
      }
    }

    lemma {:induction false} NotOwned(b: Block?)
      requires Linked()
      ensures b != null && b.owner != this ==> b !in list
    {
    }

    // -------------------------------------------------------------------------
    // Erasing

    lemma {:induction false} StartOn()
      requires Linked()
      ensures first == if list == [] then null else list[0]
    {
    }

    lemma {:induction false} StepOn(n: nat)
      requires Linked() && n < |list|
      ensures list[n] in list && list[n].next == if n + 1 < |list| then list[n + 1] else null
    {
    }

    lemma {:induction false} NoneTwice()
      requires Linked()
      ensures forall i, j :: 0 <= i < j < |list| ==> list[i] != list[j]
    {
    }

    /** lc_func_uses_block_id */
    method UsesId(skip: Block, id: nat) returns (used: bool)
      requires Linked()
      ensures used ==> exists b :: b in list && b != skip && id in b.refs
      ensures !used ==> forall b :: b in list && b != skip ==> id !in b.refs
    {
      hide OnList, Linked;
      StartOn();
      var b := first;
      ghost var n := 0;
      while b != null
        invariant Linked()
        invariant n <= |list| && b == (if n < |list| then list[n] else null)
        invariant forall k :: 0 <= k < n ==> list[k] == skip || id !in list[k].refs
        decreases |list| - n
      {
        if b != skip && id in b.refs {
          StepOn(n);
          return true;
        }
        StepOn(n);
        b := b.next;
        n := n + 1;
      }
      used := false;
    }

    /** The ids above the removed one move down, on the blocks of the list. */
    method Renumber(removed: nat)
      requires Linked()
      modifies bound`id
      ensures forall b :: b in list ==> b.id == Shift(old(b.id), removed)
      ensures forall b :: b in bound && b !in list ==> b.id == old(b.id)
    {
      hide NoRepeats, First, Last, After, Shift;
      StartOn();
      NoneTwice();
      var it := first;
      ghost var n := 0;
      while it != null
        invariant n <= |list| && it == (if n < |list| then list[n] else null)
        invariant forall k :: 0 <= k < |list| ==>
            list[k].id == if k < n then Shift(old(list[k].id), removed) else old(list[k].id)
        invariant forall b :: b in bound && b !in list ==> b.id == old(b.id)
        decreases |list| - n
      {
        StepOn(n);
        ShiftIs(it.id, removed);
        if it.id > removed {
          it.id := it.id - 1;
        }
        it := it.next;
        n := n + 1;
      }
    }

    /** lc_func_remap_block_operands_after_erase */
    method RemapRefs(removed: nat)
      requires Linked()
      modifies bound`refs
      ensures forall b :: b in list ==> b.refs == ShiftAll(old(b.refs), removed)
    {
      hide NoRepeats, First, Last, After, ShiftAll;
      StartOn();
      NoneTwice();
      var it := first;
      ghost var n := 0;
      while it != null
        invariant n <= |list| && it == (if n < |list| then list[n] else null)
        invariant forall k :: 0 <= k < |list| ==>
            list[k].refs == if k < n then ShiftAll(old(list[k].refs), removed) else old(list[k].refs)
        decreases |list| - n
      {
        StepOn(n);
        it.refs := ShiftAll(it.refs, removed);
        it := it.next;
        n := n + 1;
      }
    }

    /** Ids of the bound blocks. */
    ghost function Ids(): map<Block, nat>
      reads this`bound, bound`id
    {
      map b | b in bound :: b.id
    }

    /** lr_llvm_compat_block_erase.  Ids stay 0 .. numBlocks - 1 exactly when no block that is
        bound but off the list had a higher id. */
    method Erase(block: Block) returns (ok: bool, removed: nat)
      requires Linked() && block in bound
      modifies this`first, this`last, this`list, this`numBlocks, this`isDecl, this`bound
      modifies bound`next, bound`owner, bound`id, bound`refs
      ensures ok <==> block in old(list) && forall b :: b in old(list) && b != block ==> old(block.id) !in old(b.refs)
      ensures !ok ==>
        Linked() && list == old(list) && bound == old(bound) && Ids() == old(Ids()) && numBlocks == old(numBlocks)
      ensures ok ==> Linked() && list == Without(old(list), block) && bound == old(bound) - {block}
      ensures ok ==> block.owner == null && block.next == null && removed == old(block.id)
      ensures ok ==> numBlocks == (if old(numBlocks) > 0 then old(numBlocks) - 1 else 0) && (isDecl <==> list == [])
      ensures ok ==>
        forall b :: b in list ==> b.id == Shift(old(b.id), removed) && b.refs == ShiftAll(old(b.refs), removed)
      ensures ok ==> forall b :: b in bound && b !in list ==> b.id == old(b.id)
      ensures ok && old(Numbered()) ==> (Numbered() <==> forall b :: b in bound && b !in list ==> b.id < removed)
    {
      hide NoRepeats, First, Last, After, Without, OnList, Linked, Numbered, IsNumbering, ShiftAll, Shift;
      removed := block.id;
      NumberedIs();
      var used := UsesId(block, block.id);
      if used {
        return false, removed;
      }
      ghost var ids := Ids();
      ok := Detach(block);
      if !ok {
        return;
      }
      assert ids == Ids()[block := removed];
      RenumberAll(block, removed, ids);
      RemapRefs(removed);
      isDecl := first == null;
      FirstNull();
    }

    /** Renumbering after block was given up keeps the numbering under that condition. */
    method RenumberAll(block: Block, removed: nat, ghost ids: map<Block, nat>)
      requires Linked() && block !in bound && (forall b :: b in list ==> b in bound)
      requires ids == Ids()[block := removed]
      modifies bound`id
      ensures forall b :: b in list ==> b.id == Shift(old(b.id), removed)
      ensures forall b :: b in bound && b !in list ==> b.id == old(b.id)
      ensures IsNumbering(ids) && numBlocks == |bound| ==>
        (Numbered() <==> forall b :: b in bound && b !in list ==> b.id < removed)
    {
      hide NoRepeats, First, Last, After, OnList, Numbered, IsNumbering;
      Renumber(removed);
      ghost var linked := set b | b in list;
      if IsNumbering(ids) {
        RenumberedIff(ids, block, linked);
      }
      assert Ids() == Renumbered(ids, block, linked);
      assert forall b :: b in bound <==> b in ids && b != block;
      assert forall b :: b in bound && b !in list ==> ids[b] == b.id;
      NumberedIs();
    }

    /** Unlink a block and give it up. */
    method Detach(block: Block) returns (ok: bool)
      requires Linked() && block in bound
      modifies this`first, this`last, this`list, this`numBlocks, this`bound, bound`next, block`owner
      ensures ok <==> block in old(list)
      ensures !ok ==> Linked() && list == old(list) && bound == old(bound) && numBlocks == old(numBlocks)
      ensures ok ==> Linked() && list == Without(old(list), block) && bound == old(bound) - {block}
      ensures ok ==> block.owner == null && block.next == null
      ensures ok ==> numBlocks == if old(numBlocks) > 0 then old(numBlocks) - 1 else 0
      ensures ok && old(numBlocks) == old(|bound|) ==> numBlocks == |bound|
      ensures ok ==> forall b :: b in list <==> b in old(list) && b != block
      ensures ok ==> forall b :: b in list ==> b in bound
    {
      hide NoRepeats, First, Last, After, Without;
      ok := Unlink(block);
      if !ok {
        return;
      }
      block.owner := null;
      block.next := null;
      assert |bound - {block}| == |bound| - 1;
      bound := bound - {block};
      if numBlocks > 0 {
        numBlocks := numBlocks - 1;
      }
    }

    lemma {:induction false} NumberedIs()
      ensures Numbered() <==> |bound| == numBlocks && IsNumbering(Ids())
      ensures |Ids()| == |bound|
    {
      assert Ids().Keys == bound;
      assert |Ids().Keys| == |Ids()|;
    }

    lemma {:induction false} FirstNull()
      requires Linked()
      ensures first == null <==> list == []
    {
    }
  }

  function Shift(n: nat, removed: nat): nat {
    if n > removed then n - 1 else n
  }

  lemma {:induction false} ShiftIs(n: nat, removed: nat)
    ensures Shift(n, removed) == if n > removed then n - 1 else n
  {
  }

  function ShiftAll(refs: seq<nat>, removed: nat): seq<nat> {
    seq(|refs|, i requires 0 <= i < |refs| => Shift(refs[i], removed))
  }

  class Module {
    /** Blocks created but not yet put on a list. */
    var detached: set<Block>

    constructor ()
      ensures detached == {}
    {
      detached := {};
    }
  }

  /** Where an insertion puts a block: at the end, or before another block. */
  function Inserted(list: seq<Block>, block: Block, before: Block?, attachable: bool): seq<Block> {
    Placed(if block !in list && attachable then list + [block] else list, block, before)
  }

  function Placed(base: seq<Block>, block: Block, before: Block?): seq<Block> {
    if block !in base || before == block then base
    else if before == null then Without(base, block) + [block]
    else
      var anchor: Block := before;
      var rest := Without(base, block);
      if anchor !in base || IndexOf(base, block) + 1 == IndexOf(base, anchor) || anchor !in rest then base
      else InsertAt(rest, IndexOf(rest, anchor), block)
  }

  lemma {:induction false} IndexFound(s: seq<Block>, x: Block)
    requires x in s
    ensures IndexOf(s, x) < |s| && s[IndexOf(s, x)] == x
  {
  }

  lemma {:induction false} IndexUnique(s: seq<Block>, i: nat)
    requires NoRepeats(s) && i < |s|
    ensures s[i] == s[0] <==> i == 0
    ensures s != [] && First(s) == s[0]
  {
  }

  lemma {:induction false} InsertedFacts(s: seq<Block>, i: nat, x: Block)
    requires NoRepeats(s) && i <= |s| && x !in s
    ensures var r := InsertAt(s, i, x);
      NoRepeats(r) && forall y :: y in r <==> y in s || y == x
  {
    var r := InsertAt(s, i, x);
    forall k | 0 <= k < |r| ensures r[k] == if k < i then s[k] else if k == i then x else s[k - 1] {
    }
    forall y | y in s ensures y in r {
      var k :| 0 <= k < |s| && s[k] == y;
      assert r[if k < i then k else k + 1] == y;
    }
    assert r[i] == x;
  }

  lemma {:induction false} InsertedEnds(was: seq<Block>, i: nat, x: Block)
    requires i <= |was|
    ensures var list := InsertAt(was, i, x);
      && |list| == |was| + 1
      && First(list) == (if i == 0 then x else First(was))
      && Last(list) == (if i == |was| then x else Last(was))
  {
  }

  /** The links after putting x at position i. */
  lemma {:induction false} InsertedAt(was: seq<Block>, i: nat, x: Block, k: nat)
    requires i <= |was| && k <= |was|
    ensures var list := InsertAt(was, i, x);
      && |list| == |was| + 1
      && list[k] == (if k < i then was[k] else if k == i then x else was[k - 1])
      && After(list, k) == (if k + 1 == i then x
                            else if k == i then (if i < |was| then was[i] else null)
                            else After(was, if k < i then k else k - 1))
      && (i > 0 ==> After(was, i - 1) == if i < |was| then was[i] else null)
  {
  }

  lemma {:induction false} HeadOf(list: seq<Block>)
    ensures list == [] ==> First(list) == null
    ensures list != [] ==> First(list) == list[0] && list[0] in list
  {
  }

  lemma {:induction false} FirstIs(list: seq<Block>, i: nat)
    requires NoRepeats(list) && i < |list|
    ensures First(list) == list[i] <==> i == 0
    ensures Last(list) == list[i] <==> i == |list| - 1
    ensures forall k :: 0 <= k < |list| ==> (list[k] == list[i] <==> k == i)
    ensures i > 0 ==> forall k :: 0 <= k < |list| ==> (list[k] == list[i - 1] <==> k == i - 1)
  {
  }

  /** The links after taking out element i: only those around it differ. */
  lemma {:induction false} RemovedChain(was: seq<Block>, i: nat)
    requires i < |was|
    ensures var list := was[..i] + was[i + 1..];
      && First(list) == (if i == 0 then After(was, 0) else First(was))
      && Last(list) == (if i == |was| - 1 then (if i == 0 then null else was[i - 1]) else Last(was))
      && (forall k :: 0 <= k < |list| ==> list[k] == was[if k < i then k else k + 1])
      && (forall k :: 0 <= k < |list| ==>
            After(list, k) == if k + 1 == i then After(was, i) else After(was, if k < i then k else k + 1))
  {
  }

  lemma {:induction false} RemovedFacts<T>(s: seq<T>, i: nat)
    requires NoRepeats(s) && i < |s|
    ensures var r := s[..i] + s[i + 1..];
      NoRepeats(r) && s[i] !in r && forall x :: x in r <==> x in s && x != s[i]
  {
    var r := s[..i] + s[i + 1..];
    forall x | x in s && x != s[i] ensures x in r {
      var k :| 0 <= k < |s| && s[k] == x;
      assert r[if k < i then k else k - 1] == x;
    }
    forall k | 0 <= k < |r| ensures r[k] == s[if k < i then k else k + 1] {
    }
  }

  lemma {:induction false} NotThere<T>(s: seq<T>, x: T)
    requires x !in s
    ensures Without(s, x) == s
  {
    if s != [] {
      assert s[0] in s && x !in s[1..];
      NotThere(s[1..], x);
    }
  }

  lemma {:induction false} AtEnd(list: seq<Block>, x: Block)
    ensures list != [] ==> InsertAt(list, |list| - 1 + 1, x) == list + [x]
    ensures list == [] ==> list + [x] == [x]
  {
  }

  lemma {:induction false} OneBlock(x: Block)
    ensures NoRepeats([x]) && First([x]) == x && Last([x]) == x && After([x], 0) == null
  {
  }

  lemma {:induction false} LastIs(list: seq<Block>)
    ensures list != [] ==> Last(list) == list[|list| - 1] && list[|list| - 1] in list
    ensures list == [] ==> Last(list) == null
  {
  }

  lemma {:induction false} AlreadyLast(list: seq<Block>, x: Block)
    requires NoRepeats(list)
    ensures x in list && Last(list) == x ==> Without(list, x) + [x] == list
  {
    if x in list && Last(list) == x {
      WithoutIs(list, |list| - 1);
      assert list[..|list| - 1] + [x] == list;
    }
  }

  lemma {:induction false} IndexOfLast(list: seq<Block>)
    requires NoRepeats(list) && list != []
    ensures list[|list| - 1] in list && IndexOf(list, list[|list| - 1]) == |list| - 1
  {
    WithoutIs(list, |list| - 1);
  }

  lemma {:induction false} NextOnList(list: seq<Block>, i: nat)
    requires i < |list|
    ensures After(list, i) != null ==> After(list, i) in list
  {
  }

  lemma {:induction false} LastIsLast(list: seq<Block>)
    requires list != []
    ensures After(list, |list| - 1) == null
  {
  }

  lemma {:induction false} MovedToEnd(list: seq<Block>, x: Block)
    requires NoRepeats(list) && x in list && Last(list) != x
    ensures Last(list) != null && list[|list| - 1] in Without(list, x)
    ensures var rest := Without(list, x);
      InsertAt(rest, IndexOf(rest, list[|list| - 1]) + 1, x) == rest + [x]
  {
    hide Without, IndexOf, InsertAt;
    IndexFound(list, x);
    var i := IndexOf(list, x);
    var rest := Without(list, x);
    WithoutIs(list, i);
    RemovedFacts(list, i);
    FirstIs(list, i);
    LastIs(list);
    assert rest[|rest| - 1] == list[|list| - 1];
    WithoutIs(rest, |rest| - 1);
    AtEnd(rest, x);
  }

  lemma {:induction false} NextIs(list: seq<Block>, x: Block, y: Block)
    requires NoRepeats(list) && y in list
    ensures x in list ==> (After(list, IndexOf(list, x)) == y <==> IndexOf(list, x) + 1 == IndexOf(list, y))
  {
    if x in list {
      var i, j := IndexOf(list, x), IndexOf(list, y);
      assert list[j] == y;
    }
  }

  // ---------------------------------------------------------------------------
  // Numberings

  /** The values are 0 .. n - 1 for n keys, each once. */
  ghost predicate IsNumbering(ids: map<Block, nat>) {
    && (forall b :: b in ids ==> ids[b] < |ids|)
    && (forall b, c :: b in ids && c in ids && b != c ==> ids[b] != ids[c])
  }

  ghost function Renumbered(ids: map<Block, nat>, x: Block, linked: set<Block>): map<Block, nat>
    requires x in ids
  {
    map b | b in ids && b != x :: if b in linked then Shift(ids[b], ids[x]) else ids[b]
  }

  /** At most n keys have values below n. */
  lemma {:induction false} FewBelow(ids: map<Block, nat>, keys: set<Block>, n: nat)
    requires keys <= ids.Keys && forall b, c :: b in keys && c in keys && b != c ==> ids[b] != ids[c]
    requires forall b :: b in keys ==> ids[b] < n
    ensures |keys| <= n
    decreases n
  {
    if n == 0 {
      assert forall b :: b in keys ==> false;
    } else if b: Block :| b in keys && ids[b] == n - 1 {
      FewBelow(ids, keys - {b}, n - 1);
    } else {
      FewBelow(ids, keys, n - 1);
    }
  }

  /** Every number below n is used. */
  lemma {:induction false} Onto(ids: map<Block, nat>, v: nat)
    requires IsNumbering(ids) && v < |ids|
    ensures exists b :: b in ids && ids[b] == v
  {
    assert |ids.Keys| == |ids|;
    if forall b :: b in ids ==> ids[b] != v {
      var down := map b | b in ids :: if ids[b] > v then ids[b] - 1 else ids[b];
      assert down.Keys == ids.Keys;
      FewBelow(down, down.Keys, |ids| - 1);
    }
  }

  lemma {:induction false} RenumberedSize(ids: map<Block, nat>, x: Block, linked: set<Block>)
    requires x in ids
    ensures |Renumbered(ids, x, linked)| == |ids| - 1
  {
    var r := Renumbered(ids, x, linked);
    assert r.Keys == ids.Keys - {x};
    assert |r.Keys| == |r| && |ids.Keys| == |ids|;
  }

  /** A higher block that keeps its id collides with the next one, or is out of range. */
  lemma {:induction false} StaleId(ids: map<Block, nat>, x: Block, linked: set<Block>, d: Block)
    requires IsNumbering(ids) && x in ids && d in ids && d != x && d !in linked && ids[d] > ids[x]
    ensures !IsNumbering(Renumbered(ids, x, linked))
    decreases |ids| - ids[d]
  {
    var r := Renumbered(ids, x, linked);
    RenumberedSize(ids, x, linked);
    assert r[d] == ids[d];
    if ids[d] + 1 < |ids| {
      Onto(ids, ids[d] + 1);
      var k: Block :| k in ids && ids[k] == ids[d] + 1;
      if k in linked {
        assert r[k] == ids[d] && k != d;
      } else {
        StaleId(ids, x, linked, k);
      }
    }
  }

  /** Taking out x and moving the linked blocks down keeps the numbering exactly when no other
      block had a higher id. */
  lemma {:induction false} RenumberedIff(ids: map<Block, nat>, x: Block, linked: set<Block>)
    requires IsNumbering(ids) && x in ids
    ensures IsNumbering(Renumbered(ids, x, linked)) <==>
      forall b :: b in ids && b != x && b !in linked ==> ids[b] < ids[x]
  {
    var r := Renumbered(ids, x, linked);
    RenumberedSize(ids, x, linked);
    if d: Block :| d in ids && d != x && d !in linked && ids[d] >= ids[x] {
      StaleId(ids, x, linked, d);
    } else {
      forall b | b in r ensures r[b] < |r| {
        assert ids[b] != ids[x];
      }
      forall b, c | b in r && c in r && b != c ensures r[b] != r[c] {
        assert ids[b] != ids[c] && ids[b] != ids[x] && ids[c] != ids[x];
      }
    }
  }
}
