/**
 * The coordination store seen by the leader registry: a tree of nodes named by
 * slash-separated paths, each holding bytes. Only the two requests the registry
 * issues are modelled: set the data of an existing node, and create a node
 * together with any missing parents.
 */
module CoordinationStore {
  import opened Results
  import Utf8

  datatype StoreError = NoNode | NodeExists

  /** The proper ancestors of a path: each prefix that ends just before a '/' other than the leading one. */
  function Ancestors(path: string): set<string>
  {
    set i | 0 < i < |path| && path[i] == '/' :: path[..i]
  }

  /** An ancestor's own ancestors are ancestors of the descendant too. */
  lemma AncestorsOfAncestor(path: string, a: string)
    requires a in Ancestors(path)
    ensures Ancestors(a) <= Ancestors(path)
  {
    var i :| 0 < i < |path| && path[i] == '/' && a == path[..i];
    forall b | b in Ancestors(a)
      ensures b in Ancestors(path)
    {
      var j :| 0 < j < |a| && a[j] == '/' && b == a[..j];
      assert path[j] == '/' && b == path[..j];
    }
  }

  /** Every node's parents exist, as the store itself guarantees. */
  ghost predicate IsTree(nodes: map<string, seq<Utf8.Byte>>)
  {
    forall p, a :: p in nodes && a in Ancestors(p) ==> a in nodes
  }

  /**
   * `after` is `before` with `data` written at `path`: a missing path is created together
   * with its missing ancestors, which hold no data, and every other node keeps its data.
   */
  ghost predicate WrittenWithParents(before: map<string, seq<Utf8.Byte>>, after: map<string, seq<Utf8.Byte>>,
                                     path: string, data: seq<Utf8.Byte>)
  {
    && after.Keys == before.Keys + {path} + (if path in before then {} else Ancestors(path))
    && after[path] == data
    && (forall p :: p in before && p != path ==> after[p] == before[p])
    && (forall a :: a in after && a !in before && a != path ==> after[a] == [])
  }

  class Store {
    var nodes: map<string, seq<Utf8.Byte>>
    /** The data a node is created with when the request names none. */
    const defaultData: seq<Utf8.Byte>

    constructor (defaultData: seq<Utf8.Byte>)
      ensures nodes == map[] && this.defaultData == defaultData
    {
      this.nodes := map[];
      this.defaultData := defaultData;
    }

    /** Replaces the data of an existing node; a missing node is an error and changes nothing. */
    method SetData(path: string, data: seq<Utf8.Byte>) returns (r: Outcome<StoreError>)
      modifies this
      ensures path in old(nodes) ==> r == Pass && nodes == old(nodes)[path := data]
      ensures path !in old(nodes) ==> r == Fail(NoNode) && nodes == old(nodes)
      ensures old(IsTree(nodes)) ==> IsTree(nodes)
    {
      if path in nodes {
        nodes := nodes[path := data];
        r := Pass;
      } else {
        r := Fail(NoNode);
      }
    }

    /**
     * Creates a persistent node holding the default data, first creating each missing
     * parent with empty data; an existing node is an error and changes nothing.
     */
    method CreateWithParents(path: string) returns (r: Outcome<StoreError>)
      modifies this
      ensures path in old(nodes) ==> r == Fail(NodeExists) && nodes == old(nodes)
      ensures path !in old(nodes) ==> r == Pass
      ensures path !in old(nodes) ==> nodes.Keys == old(nodes).Keys + Ancestors(path) + {path}
      ensures path !in old(nodes) ==> nodes[path] == defaultData
      ensures path !in old(nodes) ==> forall p :: p in old(nodes) ==> nodes[p] == old(nodes)[p]
      ensures path !in old(nodes) ==> forall a :: a in nodes && a !in old(nodes) && a != path ==> nodes[a] == []
      ensures old(IsTree(nodes)) ==> IsTree(nodes)
    {
      if path in nodes {
        r := Fail(NodeExists);
      } else {
        ghost var before := nodes;
        var parents := map a | a in Ancestors(path) && a !in nodes :: [];
        nodes := (nodes + parents)[path := defaultData];
        r := Pass;
        if IsTree(before) {
          forall p, a | p in nodes && a in Ancestors(p)
            ensures a in nodes
          {
            if p in Ancestors(path) {
              AncestorsOfAncestor(path, p);
            }
          }
        }
      }
    }
  }
}
