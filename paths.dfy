/** The path string of a node (`get_path_string`) with the file-system
    suffix (`FileSystemTree.get_suffix`); the separator (`os.sep`) is a
    parameter. */
module Paths {
  import opened Trees

  /** `FileSystemTree.get_suffix` (tm_trees.py:447-453) for a node with or
      without children. */
  function FileSuffix(isLeaf: bool): (s: string)
    ensures isLeaf ==> s == " (file)"
    ensures !isLeaf ==> s == " (folder)"
  {
    if isLeaf then " (file)" else " (folder)"
  }

  /** The suffix `get_path_string` appends to node `id`: always when it is
      the final node, and for a leaf below the root even when it is not. */
  function Tail(f: Forest, id: nat, final: bool): string
    requires id < |f.kids| && id < |f.parents|
  {
    if final || (f.parents[id].Some? && f.kids[id] == []) then FileSuffix(f.kids[id] == []) else ""
  }

  /** `get_path_string` (tm_trees.py:375-392): the parent's path (without
      final suffix), the separator and this node's name, then `Tail`.
      The empty tree, named `None`, has no path: `None`, the value the
      source returns for it without a final suffix (lines 381 and 384);
      with one the source fails. */
  function PathString(f: Forest, ghost rank: seq<nat>, id: nat, final: bool, sep: string): (r: Option<string>)
    requires Wf(f, rank) && id < |f.names|
    ensures r.None? <==> f.names[id].None?
    decreases |f.names| - rank[id]
  {
    if f.names[id].None? then None
    else match f.parents[id]
      case None => Some(f.names[id].value + Tail(f, id, final))
      case Some(p) =>
        ParentRank(f, rank, id);
        var up := PathString(f, rank, p, false, sep);
        if up.None? then None
        else Some(up.value + sep + f.names[id].value + Tail(f, id, final))
  }

  /** The nodes from the root down to `id`. */
  function Ancestry(f: Forest, ghost rank: seq<nat>, id: nat): (a: seq<nat>)
    requires Wf(f, rank) && id < |f.names|
    ensures a != [] && a[|a| - 1] == id && a[0] == Root(f, rank, id)
    ensures forall j :: 0 <= j < |a| ==> a[j] < |f.names|
    ensures forall j :: 0 < j < |a| ==> f.parents[a[j]] == Some(a[j - 1])
    ensures f.names[id].Some? ==> forall j :: 0 <= j < |a| ==> f.names[a[j]].Some?
    decreases |f.names| - rank[id]
  {
    match f.parents[id]
    case None => [id]
    case Some(p) =>
      ParentRank(f, rank, id);
      Ancestry(f, rank, p) + [id]
  }

  /** The names of `ids` joined by `sep`. */
  function JoinNames(f: Forest, ids: seq<nat>, sep: string): string
    requires ids != [] && forall j :: 0 <= j < |ids| ==> ids[j] < |f.names| && f.names[ids[j]].Some?
  {
    if |ids| == 1 then f.names[ids[0]].value
    else JoinNames(f, ids[..|ids| - 1], sep) + sep + f.names[ids[|ids| - 1]].value
  }

  /** The path string of a named node is the names from the root down to it,
      joined by the separator, followed by its suffix; no ancestor adds a
      suffix of its own. */
  lemma {:induction false} PathStringJoin(f: Forest, rank: seq<nat>, id: nat, final: bool, sep: string)
    requires Wf(f, rank) && id < |f.names| && f.names[id].Some?
    ensures PathString(f, rank, id, final, sep) == Some(JoinNames(f, Ancestry(f, rank, id), sep) + Tail(f, id, final))
    decreases |f.names| - rank[id]
  {
    match f.parents[id]
    case None =>
    case Some(p) =>
      ParentRank(f, rank, id);
      assert f.kids[p] != [];
      PathStringJoin(f, rank, p, false, sep);
      var a := Ancestry(f, rank, p);
      assert Tail(f, p, false) == "";
      assert f.names[p].Some?;
      var j := JoinNames(f, a, sep);
      assert j + "" == j;
      assert Ancestry(f, rank, id) == a + [id];
      assert (a + [id])[..|a + [id]| - 1] == a;
      assert JoinNames(f, a + [id], sep) == JoinNames(f, a, sep) + sep + f.names[id].value;
  }

  /** A path starts with the root's name. */
  lemma PathStartsAtRoot(f: Forest, rank: seq<nat>, id: nat, final: bool, sep: string)
    requires Wf(f, rank) && id < |f.names| && f.names[id].Some?
    ensures f.names[Root(f, rank, id)].Some?
    ensures PathString(f, rank, id, final, sep).Some?
    ensures f.names[Root(f, rank, id)].value <= JoinNames(f, Ancestry(f, rank, id), sep)
  {
    JoinPrefix(f, Ancestry(f, rank, id), sep);
  }

  lemma {:induction false} JoinPrefix(f: Forest, ids: seq<nat>, sep: string)
    requires ids != [] && forall j :: 0 <= j < |ids| ==> ids[j] < |f.names| && f.names[ids[j]].Some?
    ensures f.names[ids[0]].value <= JoinNames(f, ids, sep)
    decreases |ids|
  {
    if |ids| > 1 {
      JoinPrefix(f, ids[..|ids| - 1], sep);
    }
  }
}
