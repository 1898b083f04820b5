/** The manager's two name tables: which routers hold a content, and which servers. */
module NameTables {
  import opened Basics
  import opened NamedContentCache

  type Address = uint32

  /** The pairs registered for `names` held by `server`, and for the first `n` servers. */
  function PairsOf(names: seq<Name>, server: Address): (pairs: seq<(Name, Address)>)
    ensures |pairs| == |names|
  {
    seq(|names|, j requires 0 <= j < |names| => (names[j], server))
  }

  function Registered(contents: seq<seq<Name>>, servers: seq<Address>, n: nat): seq<(Name, Address)>
    requires n <= |contents| && n <= |servers|
  {
    if n == 0 then [] else Registered(contents, servers, n - 1) + PairsOf(contents[n - 1], servers[n - 1])
  }

  /** Exactly the contents of each server are registered under its address. */
  lemma {:induction false} RegisteredExactly(contents: seq<seq<Name>>, servers: seq<Address>, n: nat,
                                             name: Name, a: Address)
    requires n <= |contents| && n <= |servers|
    ensures (name, a) in Registered(contents, servers, n)
       <==> exists i :: 0 <= i < n && servers[i] == a && name in contents[i]
  {
    if n > 0 {
      RegisteredExactly(contents, servers, n - 1, name, a);
      var pairs := PairsOf(contents[n - 1], servers[n - 1]);
      if name in contents[n - 1] && servers[n - 1] == a {
        var j :| 0 <= j < |contents[n - 1]| && contents[n - 1][j] == name;
        assert pairs[j] == (name, a);
      }
    }
  }

  predicate Lists(table: seq<(Name, Address)>, name: Name) {
    exists i :: 0 <= i < |table| && table[i].0 == name
  }

  class NameTables {
    var cachedRouterTable: seq<(Name, Address)>
    var nameServerTable: seq<(Name, Address)>

    constructor ()
      ensures cachedRouterTable == [] && nameServerTable == []
    {
      cachedRouterTable, nameServerTable := [], [];
    }

    method NameRegisteration(contents: seq<seq<Name>>, servers: seq<Address>)
      requires |contents| <= |servers|
      modifies `nameServerTable
      ensures nameServerTable == old(nameServerTable) + Registered(contents, servers, |contents|)
    {
      var i := 0;
      while i < |contents|
        invariant 0 <= i <= |contents|
        invariant nameServerTable == old(nameServerTable) + Registered(contents, servers, i)
      {
        var names, j := contents[i], 0;
        ghost var before := nameServerTable;
        while j < |names|
          invariant 0 <= j <= |names|
          invariant nameServerTable == before + PairsOf(names, servers[i])[..j]
        {
          nameServerTable := nameServerTable + [(names[j], servers[i])];
          j := j + 1;
        }
        assert PairsOf(names, servers[i])[..j] == PairsOf(names, servers[i]);
        i := i + 1;
      }
    }

    method SetCachedRouterEntry(router: Address, name: Name)
      modifies `cachedRouterTable
      ensures multiset(cachedRouterTable) == multiset(old(cachedRouterTable)) + multiset{(name, router)}
    {
      cachedRouterTable := cachedRouterTable + [(name, router)];
    }

    /** Removes one matching pair, if there is one. */
    method EvictCachedRouterEntry(router: Address, name: Name)
      modifies `cachedRouterTable
      ensures multiset(cachedRouterTable) == multiset(old(cachedRouterTable)) - multiset{(name, router)}
    {
      var i := 0;
      while i < |cachedRouterTable|
        invariant 0 <= i <= |cachedRouterTable|
        invariant cachedRouterTable == old(cachedRouterTable)
        invariant (name, router) !in cachedRouterTable[..i]
      {
        if cachedRouterTable[i].0 == name && cachedRouterTable[i].1 == router {
          CutPair(cachedRouterTable, i);
          cachedRouterTable := cachedRouterTable[..i] + cachedRouterTable[i + 1..];
          return;
        }
        i := i + 1;
      }
      assert cachedRouterTable[..i] == cachedRouterTable;
    }

    /** A router that holds the content, or else a server; which of several is not said. */
    method NameResolution(name: Name) returns (source: Option<Address>)
      ensures source.Some? <==> Lists(cachedRouterTable, name) || Lists(nameServerTable, name)
      ensures source.Some? ==>
                if Lists(cachedRouterTable, name) then (name, source.value) in cachedRouterTable
                else (name, source.value) in nameServerTable
    {
      source := FirstOf(cachedRouterTable, name);
      if source == None {
        source := FirstOf(nameServerTable, name);
      }
    }
  }

  method FirstOf(table: seq<(Name, Address)>, name: Name) returns (found: Option<Address>)
    ensures found.Some? <==> Lists(table, name)
    ensures found.Some? ==> (name, found.value) in table
  {
    var i := 0;
    while i < |table|
      invariant 0 <= i <= |table|
      invariant forall j | 0 <= j < i :: table[j].0 != name
    {
      if table[i].0 == name {
        return Some(table[i].1);
      }
      i := i + 1;
    }
    return None;
  }

  lemma CutPair(table: seq<(Name, Address)>, i: nat)
    requires i < |table|
    ensures multiset(table[..i] + table[i + 1..]) == multiset(table) - multiset{table[i]}
  {
    assert table == table[..i] + [table[i]] + table[i + 1..];
  }
}
