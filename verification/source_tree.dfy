/** Remote path reconstruction (`Tree.get_source_tree`): one front-to-back
    pass over the entries of a remote directory export. Each entry is
    given a path from its parent's path, is indexed under its own key, and
    its path is emitted (with '/' turned into the local separator) when it
    is not empty. The export iterator itself is foreign: its output is the
    input sequence here. */
module SourceTree {
  import opened Strings

  /** Opaque identifier of a remote entry. */
  type Key = string

  /** One record of the export stream. */
  datatype Entry = Entry(key: Key, parentKey: Key, name: string)

  /** State of the pass after some prefix of the stream: the index from key
      to the path of the LATEST entry with that key, and the path given to
      every entry so far, in stream order. */
  datatype Progress = Progress(index: map<Key, string>, paths: seq<string>)

  /** The path the entry at 0-based position `pos` receives, given the index
      built from the entries before it. Position 1 is the source's `i == 2`. */
  function Resolve(index: map<Key, string>, pos: nat, e: Entry, root: string): string
  {
    if e.parentKey !in index then ""
    else if pos == 1 && EndsWith(root, e.name) then root
    else index[e.parentKey] + "/" + e.name
  }

  /** Processing one more entry. */
  function Step(p: Progress, e: Entry, root: string): Progress
  {
    var path := Resolve(p.index, |p.paths|, e, root);
    Progress(p.index[e.key := path], p.paths + [path])
  }

  /** The pass over a whole stream. */
  function Run(es: seq<Entry>, root: string): (p: Progress)
    ensures |p.paths| == |es|
  {
    if |es| == 0 then Progress(map[], [])
    else Step(Run(es[..|es| - 1], root), es[|es| - 1], root)
  }

  /** What the source appends to its output list for a sequence of resolved
      paths: the non-empty ones, each with '/' replaced by `sep`, in order. */
  function Emit(paths: seq<string>, sep: char): (out: seq<string>)
    ensures |out| <= |paths|
    ensures forall k :: 0 <= k < |out| ==> out[k] != ""
  {
    if |paths| == 0 then []
    else
      var last := paths[|paths| - 1];
      Emit(paths[..|paths| - 1], sep) + (if last != "" then [ReplaceChar(last, '/', sep)] else [])
  }

  /** The list `get_source_tree` returns for a stream, requested root path
      and local separator. */
  function Output(es: seq<Entry>, root: string, sep: char): seq<string>
  {
    Emit(Run(es, root).paths, sep)
  }

  /** The index as it stands just before the entry at position `j`. */
  function IndexBefore(es: seq<Entry>, root: string, j: nat): map<Key, string>
    requires j <= |es|
  {
    Run(es[..j], root).index
  }

  /** The loop of `get_source_tree`, single pass with a growing index. */
  method GetSourceTree(entries: seq<Entry>, root: string, sep: char) returns (tree: seq<string>)
    ensures tree == Output(entries, root, sep)
    ensures |tree| <= |entries|
    ensures forall k :: 0 <= k < |tree| ==> tree[k] != ""
  {
    var n := 0;
    var index: map<Key, string> := map[];
    ghost var paths: seq<string> := [];
    tree := [];
    while n < |entries|
      invariant n <= |entries|
      invariant Run(entries[..n], root) == Progress(index, paths)
      invariant tree == Emit(paths, sep)
    {
      var item := entries[n];
      var path: string;
      if item.parentKey !in index {
        path := "";
      } else if n == 1 && EndsWith(root, item.name) {
        path := root;
      } else {
        path := index[item.parentKey] + "/" + item.name;
      }
      assert Step(Progress(index, paths), item, root) == Progress(index[item.key := path], paths + [path]);
      RunSnoc(entries, root, n);
      EmitSnoc(paths, path, sep);
      index := index[item.key := path];
      paths := paths + [path];
      if path != "" {
        tree := tree + [ReplaceChar(path, '/', sep)];
      }
      n := n + 1;
    }
    assert entries[..|entries|] == entries;
  }

  /** One more entry of the stream is one more step of the pass. */
  lemma RunSnoc(es: seq<Entry>, root: string, n: nat)
    requires n < |es|
    ensures Run(es[..n + 1], root) == Step(Run(es[..n], root), es[n], root)
  {
    assert es[..n + 1][..n] == es[..n];
  }

  /** One more resolved path adds at most its converted form to the output. */
  lemma EmitSnoc(paths: seq<string>, p: string, sep: char)
    ensures Emit(paths + [p], sep) == Emit(paths, sep) + (if p != "" then [ReplaceChar(p, '/', sep)] else [])
  {
    assert (paths + [p])[..|paths|] == paths;
  }

  // ---------------------------------------------------------------------
  // Per-entry resolution

  /** Running the pass on a prefix gives the prefix of the paths: later
      entries never change the path of an earlier one. */
  lemma {:induction false} RunPrefix(es: seq<Entry>, root: string, m: nat)
    requires m <= |es|
    ensures Run(es[..m], root).paths == Run(es, root).paths[..m]
    decreases |es|
  {
    if m < |es| {
      var init := es[..|es| - 1];
      assert init[..m] == es[..m];
      RunPrefix(init, root, m);
    } else {
      assert es[..m] == es;
    }
  }

  /** The path of the entry at position `j` is its resolution against the
      index of the entries before it. */
  lemma PathAt(es: seq<Entry>, root: string, j: nat)
    requires j < |es|
    ensures Run(es, root).paths[j] == Resolve(IndexBefore(es, root, j), j, es[j], root)
  {
    RunPrefix(es, root, j + 1);
    assert es[..j + 1][..j] == es[..j];
  }

  /** An entry whose parent is not yet indexed gets the empty path. */
  lemma OrphanGetsEmptyPath(es: seq<Entry>, root: string, j: nat)
    requires j < |es|
    requires es[j].parentKey !in IndexBefore(es, root, j)
    ensures Run(es, root).paths[j] == ""
  {
    PathAt(es, root, j);
  }

  /** Outside the special case of the second entry, an entry with an indexed
      parent is placed under its parent's path; the child of an entry whose
      path is empty therefore gets "/" + name. */
  lemma ChildPath(es: seq<Entry>, root: string, j: nat)
    requires j < |es|
    requires es[j].parentKey in IndexBefore(es, root, j)
    requires !(j == 1 && EndsWith(root, es[j].name))
    ensures Run(es, root).paths[j] == IndexBefore(es, root, j)[es[j].parentKey] + "/" + es[j].name
    ensures IndexBefore(es, root, j)[es[j].parentKey] == "" ==> Run(es, root).paths[j] == "/" + es[j].name
  {
    PathAt(es, root, j);
  }

  /** The second entry, when its parent is indexed and the requested root
      path ends with its name, gets exactly the requested root path. */
  lemma AnchorNaming(es: seq<Entry>, root: string)
    requires |es| >= 2
    requires es[1].parentKey in IndexBefore(es, root, 1)
    requires EndsWith(root, es[1].name)
    ensures Run(es, root).paths[1] == root
  {
    PathAt(es, root, 1);
  }

  /** Exactly which entries get the empty path: those whose parent is not
      yet indexed, plus the second entry when both the requested root and
      its name are empty. */
  lemma EmptyPathIff(es: seq<Entry>, root: string, j: nat)
    requires j < |es|
    ensures Run(es, root).paths[j] == ""
        <==> (es[j].parentKey !in IndexBefore(es, root, j) || (j == 1 && root == "" && es[j].name == ""))
  {
    PathAt(es, root, j);
    var index := IndexBefore(es, root, j);
    if es[j].parentKey in index && !(j == 1 && EndsWith(root, es[j].name)) {
      var p := index[es[j].parentKey] + "/" + es[j].name;
      assert p[|index[es[j].parentKey]|] == '/';
    }
  }

  // ---------------------------------------------------------------------
  // The index

  /** Every processed entry is indexed under its key, whether or not its
      path is emitted, and no other key is indexed. */
  lemma {:induction false} IndexedKeys(es: seq<Entry>, root: string, k: Key)
    ensures k in Run(es, root).index <==> exists j :: 0 <= j < |es| && es[j].key == k
    decreases |es|
  {
    if |es| > 0 {
      var init := es[..|es| - 1];
      IndexedKeys(init, root, k);
      if k in Run(init, root).index {
        var j :| 0 <= j < |init| && init[j].key == k;
        assert es[j].key == k;
      }
      if exists j :: 0 <= j < |es| && es[j].key == k {
        var j :| 0 <= j < |es| && es[j].key == k;
        if j < |init| {
          assert init[j].key == k;
        }
      }
    }
  }

  /** The index holds the path of the LAST entry carrying a key: a later
      entry with the same key overwrites an earlier one. */
  lemma {:induction false} IndexIsLastWriter(es: seq<Entry>, root: string, j: nat)
    requires j < |es|
    requires forall j' :: j < j' < |es| ==> es[j'].key != es[j].key
    ensures es[j].key in Run(es, root).index
    ensures Run(es, root).index[es[j].key] == Run(es, root).paths[j]
    decreases |es|
  {
    var init := es[..|es| - 1];
    if j < |es| - 1 {
      assert forall j' :: j < j' < |init| ==> init[j'].key != init[j].key by {
        forall j' | j < j' < |init| ensures init[j'].key != init[j].key {
          assert init[j'] == es[j'];
        }
      }
      IndexIsLastWriter(init, root, j);
    }
  }

  // ---------------------------------------------------------------------
  // What is emitted

  /** The positions of the non-empty paths, in increasing order. */
  function Selected(paths: seq<string>): (pos: seq<nat>)
    ensures forall k :: 0 <= k < |pos| ==> pos[k] < |paths| && paths[pos[k]] != ""
    ensures forall k, l :: 0 <= k < l < |pos| ==> pos[k] < pos[l]
    ensures forall j :: 0 <= j < |paths| && paths[j] != "" ==> j in pos
  {
    if |paths| == 0 then []
    else
      var init := Selected(paths[..|paths| - 1]);
      init + (if paths[|paths| - 1] != "" then [|paths| - 1] else [])
  }

  /** The output is the order-preserving subsequence of the resolved paths
      made of the non-empty ones, each with '/' replaced by `sep`. */
  lemma {:induction false} EmitIsSubsequence(paths: seq<string>, sep: char)
    ensures |Emit(paths, sep)| == |Selected(paths)|
    ensures forall k :: 0 <= k < |Selected(paths)| ==>
              Emit(paths, sep)[k] == ReplaceChar(paths[Selected(paths)[k]], '/', sep)
  {
    if |paths| > 0 {
      var init := paths[..|paths| - 1];
      EmitIsSubsequence(init, sep);
      var pos, out := Selected(paths), Emit(paths, sep);
      forall k | 0 <= k < |pos| ensures out[k] == ReplaceChar(paths[pos[k]], '/', sep) {
        if k < |Selected(init)| {
          assert pos[k] == Selected(init)[k];
          assert out[k] == Emit(init, sep)[k];
          assert init[pos[k]] == paths[pos[k]];
        } else {
          assert pos[k] == |paths| - 1;
          assert out == Emit(init, sep) + [ReplaceChar(paths[|paths| - 1], '/', sep)];
        }
      }
    }
  }

  /** The entry at position `j` contributes to the output exactly when its
      parent was already indexed, except for an empty second entry under an
      empty requested root. */
  lemma EmittedIff(es: seq<Entry>, root: string, j: nat)
    requires j < |es|
    ensures j in Selected(Run(es, root).paths)
        <==> (es[j].parentKey in IndexBefore(es, root, j) && !(j == 1 && root == "" && es[j].name == ""))
  {
    EmptyPathIff(es, root, j);
  }
}
