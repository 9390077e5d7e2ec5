/** Finding a vault's leaf in a report: the first-occurrence index and the cache of built trees in front of it. */
module ReportsMerkle {
  import opened Addresses
  import opened Wrappers

  datatype Failure = FetchFailed | VaultNotFound

  /** The addresses of a report's leaves, in leaf order, and the index built over them. */
  datatype CachedTree = CachedTree(leaves: seq<Address>, indexByVault: map<Address, nat>)

  /** The k-th leaf is the first one of this vault, in any spelling. */
  ghost predicate IsFirstLeaf(leaves: seq<Address>, vault: Address, k: nat) {
    k < |leaves| && Same(leaves[k], vault) && forall j | 0 <= j < k :: !Same(leaves[j], vault)
  }

  ghost predicate IsIndex(leaves: seq<Address>, index: map<Address, nat>) {
    && (forall a | a in index :: IsFirstLeaf(leaves, a, index[a]))
    && (forall k | 0 <= k < |leaves| :: Lower(leaves[k]) in index)
  }

  /** A lookup by lower-cased address finds the first leaf of the vault, and misses exactly when there is none. */
  lemma LookupIsFirstLeaf(leaves: seq<Address>, index: map<Address, nat>, vault: Address)
    requires IsIndex(leaves, index)
    ensures Lower(vault) in index <==> exists k :: 0 <= k < |leaves| && Same(leaves[k], vault)
    ensures Lower(vault) in index ==> IsFirstLeaf(leaves, vault, index[Lower(vault)])
  {
    LowerIdempotent(vault);
    if k :| 0 <= k < |leaves| && Same(leaves[k], vault) {
      assert Lower(leaves[k]) in index;
    }
    if Lower(vault) in index {
      assert IsFirstLeaf(leaves, Lower(vault), index[Lower(vault)]);
    }
  }

  class ReportsMerkleService {
    var cache: map<string, CachedTree>
    /** What each content address stands for. */
    ghost const book: map<string, seq<Address>>

    ghost predicate Valid()
      reads this
    {
      forall cid | cid in cache :: cid in book && cache[cid].leaves == book[cid] && IsIndex(book[cid], cache[cid].indexByVault)
    }

    constructor (ghost book: map<string, seq<Address>>)
      ensures Valid() && this.book == book && cache == map[]
    {
      this.book, cache := book, map[];
    }

    method BuildIndex(leaves: seq<Address>) returns (index: map<Address, nat>)
      ensures IsIndex(leaves, index)
    {
      index := map[];
      for k := 0 to |leaves|
        invariant forall a | a in index :: index[a] < k && IsFirstLeaf(leaves, a, index[a])
        invariant forall j | 0 <= j < k :: Lower(leaves[j]) in index
        invariant forall a | a in index :: Lower(a) == a
      {
        var vault := Lower(leaves[k]);
        LowerIdempotent(leaves[k]);
        if vault !in index {
          forall j | 0 <= j < k
            ensures !Same(leaves[j], vault)
          {
            LowerIdempotent(leaves[j]);
            assert Lower(leaves[j]) in index;
          }
          index := index[vault := k];
        }
      }
    }

    /**
     `fetched` is the report an honest fetch returns, if it succeeds, and `evicted` what the bounded cache drops. A
     cached tree is as good as a freshly built one.
     */
    method GetOrBuildMerkleTree(cid: string, fetched: Option<seq<Address>>, evicted: set<string>) returns (tree: Option<CachedTree>)
      requires Valid() && (fetched.Some? ==> cid in book && book[cid] == fetched.value)
      modifies this`cache
      ensures Valid()
      ensures tree.None? <==> cid !in old(cache) && fetched.None?
      ensures tree.Some? ==> cid in book && tree.value.leaves == book[cid] && IsIndex(book[cid], tree.value.indexByVault)
      ensures cache.Keys <= old(cache).Keys + {cid}
    {
      if cid in cache {
        return Some(cache[cid]);
      }
      if fetched.None? {
        return None;
      }
      var index := BuildIndex(fetched.value);
      var packed := CachedTree(fetched.value, index);
      cache := cache[cid := packed] - evicted;
      tree := Some(packed);
    }

    /**
     The leaf to prove. Whatever the cache holds, the answer is the first leaf of the vault in the report with this
     address; only a report that is neither cached nor fetched keeps it from being found.
     */
    method GetReportProofByVault(vault: Address, cid: string, fetched: Option<seq<Address>>, evicted: set<string>)
      returns (leaf: Result<nat, Failure>)
      requires Valid() && (fetched.Some? ==> cid in book && book[cid] == fetched.value)
      modifies this`cache
      ensures Valid()
      ensures leaf == Err(FetchFailed) <==> cid !in old(cache) && fetched.None?
      ensures leaf.Ok? ==> cid in book && IsFirstLeaf(book[cid], vault, leaf.value)
      ensures leaf == Err(VaultNotFound) ==> cid in book && forall k | 0 <= k < |book[cid]| :: !Same(book[cid][k], vault)
    {
      var tree := GetOrBuildMerkleTree(cid, fetched, evicted);
      if tree.None? {
        return Err(FetchFailed);
      }
      LookupIsFirstLeaf(book[cid], tree.value.indexByVault, vault);
      if Lower(vault) !in tree.value.indexByVault {
        return Err(VaultNotFound);
      }
      leaf := Ok(tree.value.indexByVault[Lower(vault)]);
    }
  }
}
