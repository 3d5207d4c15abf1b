// The in-memory item store: an ordered list of blocks, replaced wholesale on every change.

module BlockStore {
  import opened Types

  /** The list the store starts with. */
  function InitialBlocks(): (r: seq<Block>)
    ensures |r| == 10
    ensures forall i :: 0 <= i < |r| ==> r[i].id == i + 1
    ensures forall i :: 0 <= i < |r| ==> 1 <= r[i].width <= 2 && 1 <= r[i].height <= 2
  {
    [Block(1, 1, 1), Block(2, 2, 1), Block(3, 1, 2), Block(4, 1, 1), Block(5, 1, 1),
     Block(6, 1, 1), Block(7, 1, 2), Block(8, 1, 1), Block(9, 1, 1), Block(10, 1, 1)]
  }

  /** No two blocks of the list share an id. */
  predicate DistinctIds(blocks: seq<Block>)
  {
    forall i, j :: 0 <= i < j < |blocks| ==> blocks[i].id != blocks[j].id
  }

  predicate HasId(blocks: seq<Block>, id: int)
  {
    exists i :: 0 <= i < |blocks| && blocks[i].id == id
  }

  /** `addBlock`: the new block goes at the end. */
  function AddBlock(blocks: seq<Block>, block: Block): (r: seq<Block>)
    ensures |r| == |blocks| + 1
    ensures r[..|blocks|] == blocks && r[|blocks|] == block
  {
    blocks + [block]
  }

  /** `updateBlock`: every block whose id is `updated.id` is replaced by `updated`. */
  function UpdateBlock(blocks: seq<Block>, updated: Block): (r: seq<Block>)
    ensures |r| == |blocks|
    ensures forall i :: 0 <= i < |r| ==> r[i] == (if blocks[i].id == updated.id then updated else blocks[i])
  {
    if blocks == [] then []
    else [if blocks[0].id == updated.id then updated else blocks[0]] + UpdateBlock(blocks[1..], updated)
  }

  /** `deleteBlock`: keep the blocks whose id differs from `id`, in their order. */
  function DeleteBlock(blocks: seq<Block>, id: int): (r: seq<Block>)
    ensures |r| <= |blocks|
    ensures forall b :: b in r <==> b in blocks && b.id != id
  {
    if blocks == [] then []
    else (if blocks[0].id != id then [blocks[0]] else []) + DeleteBlock(blocks[1..], id)
  }

  /** The first block with the given id (`Array.prototype.find`). */
  function FindBlock(blocks: seq<Block>, id: int): (r: Option<Block>)
    ensures r.None? <==> !HasId(blocks, id)
    ensures r.Some? ==> r.value in blocks && r.value.id == id
    ensures r.Some? ==> exists i :: 0 <= i < |blocks| && blocks[i] == r.value &&
                                    forall j :: 0 <= j < i ==> blocks[j].id != id
  {
    if blocks == [] then None
    else if blocks[0].id == id then Some(blocks[0])
    else
      var r := FindBlock(blocks[1..], id);
      assert r.Some? ==> blocks[1..][0] == blocks[1] by {}
      assert HasId(blocks[1..], id) ==> HasId(blocks, id) by {
        if HasId(blocks[1..], id) {
          var i :| 0 <= i < |blocks[1..]| && blocks[1..][i].id == id;
          assert blocks[i + 1].id == id;
        }
      }
      assert HasId(blocks, id) ==> HasId(blocks[1..], id) by {
        if HasId(blocks, id) {
          var i :| 0 <= i < |blocks| && blocks[i].id == id;
          assert blocks[1..][i - 1].id == id;
        }
      }
      if r.Some? then
        assert exists i :: 0 <= i < |blocks| && blocks[i] == r.value &&
                           forall j :: 0 <= j < i ==> blocks[j].id != id by {
          var k :| 0 <= k < |blocks[1..]| && blocks[1..][k] == r.value &&
                   forall j :: 0 <= j < k ==> blocks[1..][j].id != id;
          assert blocks[k + 1] == r.value;
          assert forall j :: 0 <= j < k + 1 ==> blocks[j].id != id by {
            forall j | 0 <= j < k + 1 ensures blocks[j].id != id {
              if j > 0 { assert blocks[j] == blocks[1..][j - 1]; }
            }
          }
        }
        r
      else r
  }

  /** The ids of the initial store are distinct. */
  lemma InitialIdsDistinct()
    ensures DistinctIds(InitialBlocks())
  {
  }

  /** Deleting distributes over concatenation, so the kept blocks stay in their order. */
  lemma {:induction false} DeleteAppend(a: seq<Block>, b: seq<Block>, id: int)
    ensures DeleteBlock(a + b, id) == DeleteBlock(a, id) + DeleteBlock(b, id)
  {
    if a != [] {
      assert (a + b)[1..] == a[1..] + b;
      DeleteAppend(a[1..], b, id);
    } else {
      assert a + b == b;
    }
  }

  /** Deleting twice is deleting once. */
  lemma {:induction false} DeleteIdempotent(blocks: seq<Block>, id: int)
    ensures DeleteBlock(DeleteBlock(blocks, id), id) == DeleteBlock(blocks, id)
  {
    if blocks != [] {
      var rest := DeleteBlock(blocks[1..], id);
      DeleteIdempotent(blocks[1..], id);
      if blocks[0].id != id {
        assert DeleteBlock(blocks, id) == [blocks[0]] + rest;
        assert ([blocks[0]] + rest)[1..] == rest;
      } else {
        assert DeleteBlock(blocks, id) == rest;
      }
    }
  }

  /** Deleting an id that no block has leaves the list as it was. */
  lemma {:induction false} DeleteAbsent(blocks: seq<Block>, id: int)
    requires !HasId(blocks, id)
    ensures DeleteBlock(blocks, id) == blocks
  {
    if blocks != [] {
      assert !HasId(blocks[1..], id) by {
        forall i | 0 <= i < |blocks[1..]| ensures blocks[1..][i].id != id {
          assert blocks[1..][i] == blocks[i + 1];
        }
      }
      DeleteAbsent(blocks[1..], id);
      assert blocks[0].id != id;
    }
  }

  /** Updating an id that no block has leaves the list as it was. */
  lemma UpdateAbsent(blocks: seq<Block>, updated: Block)
    requires !HasId(blocks, updated.id)
    ensures UpdateBlock(blocks, updated) == blocks
  {
    var r := UpdateBlock(blocks, updated);
    assert forall i :: 0 <= i < |r| ==> r[i] == blocks[i] by {
      forall i | 0 <= i < |r| ensures r[i] == blocks[i] {
        assert blocks[i].id != updated.id;
      }
    }
  }

  /** Writing back a block that is already in a list of distinct ids changes nothing. */
  lemma UpdateWithSelf(blocks: seq<Block>, k: nat)
    requires DistinctIds(blocks) && k < |blocks|
    ensures UpdateBlock(blocks, blocks[k]) == blocks
  {
    var r := UpdateBlock(blocks, blocks[k]);
    forall i | 0 <= i < |r| ensures r[i] == blocks[i] {
      if i != k {
        assert blocks[i].id != blocks[k].id by {
          if i < k { assert blocks[i].id != blocks[k].id; } else { assert blocks[k].id != blocks[i].id; }
        }
      }
    }
  }

  /** Adding then deleting by the new id removes the new block, and only blocks with that id. */
  lemma AddThenDelete(blocks: seq<Block>, block: Block)
    ensures DeleteBlock(AddBlock(blocks, block), block.id) == DeleteBlock(blocks, block.id)
  {
    DeleteAppend(blocks, [block], block.id);
    assert DeleteBlock([block], block.id) == [];
  }
}
