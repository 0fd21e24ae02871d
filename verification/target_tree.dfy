/** Local tree walk (`Tree.get_target_tree`): a recursive pre-order walk of
    the local mirror that appends one string per directory entry to an
    accumulator and descends into every entry that is not a file. The
    string appended for an entry is its joined path with `lstrip` applied
    to it, and `lstrip` removes leading characters belonging to a SET, not
    a leading prefix. The filesystem is an in-memory tree here, and the
    separator is a parameter. */
module TargetTree {
  import opened Strings
  import opened Outcomes

  /** What `os.listdir` and `os.path.isfile` see: a file, or a directory
      with its entries in listing order. */
  datatype Node = File(name: string) | Dir(name: string, children: seq<Node>)

  /** What the filesystem holds at `root_dir`. */
  datatype Root = Missing | Exists(node: Node)

  /** Names as `os.listdir` returns them: non-empty, without a separator,
      at every level. */
  predicate ValidNames(kids: seq<Node>, sep: char)
    decreases kids
  {
    forall i :: 0 <= i < |kids| ==>
      |kids[i].name| > 0 && sep !in kids[i].name
      && (kids[i].Dir? ==> ValidNames(kids[i].children, sep))
  }

  /** The full paths of all entries below `dir`, in the order the walk
      visits them: each entry, then (for a directory) its subtree, then
      its later siblings. */
  function Listing(dir: string, kids: seq<Node>, sep: char): seq<string>
    decreases kids
  {
    if |kids| == 0 then []
    else
      var item := Join(dir, kids[0].name, sep);
      [item] + Below(item, kids[0], sep) + Listing(dir, kids[1..], sep)
  }

  /** The part of the listing under one entry whose path is `item`: nothing
      for a file, the entry's own listing for a directory. */
  function Below(item: string, n: Node, sep: char): seq<string>
    decreases n, 0
  {
    if n.File? then [] else Listing(item, n.children, sep)
  }

  /** Number of entries at every level below a directory. */
  function Count(kids: seq<Node>): nat
    decreases kids
  {
    if |kids| == 0 then 0
    else 1 + (if kids[0].File? then 0 else Count(kids[0].children)) + Count(kids[1..])
  }

  /** The characters the source strips: those of `base_dir + os.sep`. */
  function StripSet(base: string, sep: char): set<char>
  {
    CharsOf(base + [sep])
  }

  /** The string the source appends for an entry whose joined path is
      `item`: `item.lstrip(base_dir + os.sep)`. */
  function Relative(base: string, item: string, sep: char): string
  {
    LStrip(item, StripSet(base, sep))
  }

  /** No string `Relative` produces starts with a character of
      `base_dir + os.sep`, and each is a suffix of its item. */
  lemma RelativeStripped(base: string, item: string, sep: char)
    ensures EndsWith(item, Relative(base, item, sep))
    ensures Relative(base, item, sep) == "" || Relative(base, item, sep)[0] !in StripSet(base, sep)
  {
    LStripIsLongestStrip(item, StripSet(base, sep));
  }

  /** `Relative` applied to every path of a listing. */
  function RelativeAll(base: string, items: seq<string>, sep: char): seq<string>
  {
    if |items| == 0 then [] else [Relative(base, items[0], sep)] + RelativeAll(base, items[1..], sep)
  }

  /** `RelativeAll` works item by item. */
  lemma {:induction false} RelativeAllAt(base: string, items: seq<string>, sep: char)
    ensures |RelativeAll(base, items, sep)| == |items|
    ensures forall k :: 0 <= k < |items| ==> RelativeAll(base, items, sep)[k] == Relative(base, items[k], sep)
  {
    if |items| > 0 {
      RelativeAllAt(base, items[1..], sep);
    }
  }

  /** `get_target_tree(base_dir, root_dir, target_tree)`. `root` is what
      `root_dir` is: absent, a file, or a directory. An absent root returns
      the accumulator untouched; `os.listdir` on a file raises. */
  method GetTargetTree(base: string, rootDir: string, root: Root, acc: seq<string>, sep: char)
    returns (r: Result<seq<string>>)
    ensures root.Missing? ==> r == Success(acc)
    ensures root.Exists? && root.node.File? ==> r.Failure?
    ensures root.Exists? && root.node.Dir? ==>
              r == Success(acc + RelativeAll(base, Listing(rootDir, root.node.children, sep), sep))
    ensures r.Success? ==> acc <= r.value
    ensures root.Exists? && root.node.Dir? ==> |r.value| == |acc| + Count(root.node.children)
    ensures r.Success? ==> forall k :: |acc| <= k < |r.value| && r.value[k] != "" ==>
              r.value[k][0] !in StripSet(base, sep)
  {
    match root
    case Missing =>
      r := Success(acc);
    case Exists(File(_)) =>
      r := Failure("Not a directory: " + rootDir);
    case Exists(Dir(_, kids)) =>
      var tree := Walk(base, rootDir, kids, acc, sep);
      ListingSize(rootDir, kids, sep);
      var items := Listing(rootDir, kids, sep);
      RelativeAllAt(base, items, sep);
      forall k | 0 <= k < |items| {
        RelativeStripped(base, items[k], sep);
      }
      r := Success(tree);
  }

  /** The loop over `os.listdir(root_dir)` with its recursive calls,
      appending to the accumulator as the source does. */
  method Walk(base: string, dir: string, kids: seq<Node>, acc: seq<string>, sep: char)
    returns (tree: seq<string>)
    ensures tree == acc + RelativeAll(base, Listing(dir, kids, sep), sep)
    decreases kids
  {
    tree := acc;
    var i := 0;
    while i < |kids|
      invariant i <= |kids|
      invariant tree == acc + RelativeAll(base, Listing(dir, kids[..i], sep), sep)
    {
      ghost var before := tree;
      var child := kids[i];
      var item := Join(dir, child.name, sep);
      var rel := Relative(base, item, sep);
      tree := tree + [rel];
      if child.File? {
        ghost var rest := RelativeAll(base, Below(item, child, sep), sep);
        assert rest == [];
        assert tree == before + [rel] + rest;
      } else {
        tree := Walk(base, item, child.children, tree, sep);
      }
      WalkTurn(base, dir, kids, i, sep, acc, before, tree);
      i := i + 1;
    }
    assert kids[..|kids|] == kids;
  }

  /** One turn of the walk's loop keeps its invariant. */
  lemma WalkTurn(base: string, dir: string, kids: seq<Node>, i: nat, sep: char,
                 acc: seq<string>, before: seq<string>, after: seq<string>)
    requires i < |kids|
    requires before == acc + RelativeAll(base, Listing(dir, kids[..i], sep), sep)
    requires after == before + [Relative(base, Join(dir, kids[i].name, sep), sep)]
                      + RelativeAll(base, Below(Join(dir, kids[i].name, sep), kids[i], sep), sep)
    ensures after == acc + RelativeAll(base, Listing(dir, kids[..i + 1], sep), sep)
  {
    var item := Join(dir, kids[i].name, sep);
    WalkStep(base, dir, kids, i, sep);
    ConcatAssoc(acc, RelativeAll(base, Listing(dir, kids[..i], sep), sep), [Relative(base, item, sep)],
                RelativeAll(base, Below(item, kids[i], sep), sep));
  }

  /** What one turn of the walk's loop adds: the child's own string, then
      the strings of its subtree. */
  lemma WalkStep(base: string, dir: string, kids: seq<Node>, i: nat, sep: char)
    requires i < |kids|
    ensures RelativeAll(base, Listing(dir, kids[..i + 1], sep), sep)
         == RelativeAll(base, Listing(dir, kids[..i], sep), sep)
          + [Relative(base, Join(dir, kids[i].name, sep), sep)]
          + RelativeAll(base, Below(Join(dir, kids[i].name, sep), kids[i], sep), sep)
  {
    var item := Join(dir, kids[i].name, sep);
    var done := Listing(dir, kids[..i], sep);
    var sub := Below(item, kids[i], sep);
    ListingSnoc(dir, kids, i, sep);
    RelativeAllAppend(base, done + [item], sub, sep);
    RelativeAllAppend(base, done, [item], sep);
  }

  /** Extending the processed children by one. */
  lemma ListingSnoc(dir: string, kids: seq<Node>, i: nat, sep: char)
    requires i < |kids|
    ensures Listing(dir, kids[..i + 1], sep)
         == Listing(dir, kids[..i], sep) + [Join(dir, kids[i].name, sep)] + Below(Join(dir, kids[i].name, sep), kids[i], sep)
  {
    assert kids[..i + 1] == kids[..i] + [kids[i]];
    ListingAppend(dir, kids[..i], [kids[i]], sep);
    ListingSingle(dir, kids[i], sep);
  }

  lemma ListingSingle(dir: string, n: Node, sep: char)
    ensures Listing(dir, [n], sep) == [Join(dir, n.name, sep)] + Below(Join(dir, n.name, sep), n, sep)
  {
    assert [n][1..] == [];
  }

  lemma {:induction false} RelativeAllAppend(base: string, a: seq<string>, b: seq<string>, sep: char)
    ensures RelativeAll(base, a + b, sep) == RelativeAll(base, a, sep) + RelativeAll(base, b, sep)
  {
    if |a| > 0 {
      assert (a + b)[1..] == a[1..] + b;
      RelativeAllAppend(base, a[1..], b, sep);
    } else {
      assert a + b == b;
    }
  }

  /** The listing of consecutive runs of entries is the concatenation of
      their listings. */
  lemma {:induction false} ListingAppend(dir: string, a: seq<Node>, b: seq<Node>, sep: char)
    ensures Listing(dir, a + b, sep) == Listing(dir, a, sep) + Listing(dir, b, sep)
    decreases |a|
  {
    if |a| > 0 {
      assert (a + b)[1..] == a[1..] + b;
      ListingAppend(dir, a[1..], b, sep);
    } else {
      assert a + b == b;
    }
  }

  /** Pre-order: within the listing of a directory, the entry for its i-th
      child comes right after everything listed for the earlier children,
      and is followed first by the child's own subtree (nothing for a file)
      and then by the later children. */
  lemma PreOrder(dir: string, kids: seq<Node>, i: nat, sep: char)
    requires i < |kids|
    ensures Listing(dir, kids, sep)
         == Listing(dir, kids[..i], sep)
          + [Join(dir, kids[i].name, sep)]
          + Below(Join(dir, kids[i].name, sep), kids[i], sep)
          + Listing(dir, kids[i + 1..], sep)
  {
    var front, back := kids[..i], kids[i..];
    assert kids == front + back;
    ListingAppend(dir, front, back, sep);
    ListingFrom(dir, kids, i, sep);
    var item := Join(dir, kids[i].name, sep);
    ConcatAssoc(Listing(dir, front, sep), [item], Below(item, kids[i], sep), Listing(dir, kids[i + 1..], sep));
  }

  lemma ConcatAssoc<T>(a: seq<T>, b: seq<T>, c: seq<T>, d: seq<T>)
    ensures a + (b + c + d) == a + b + c + d
  {
  }

  lemma ListingFrom(dir: string, kids: seq<Node>, i: nat, sep: char)
    requires i < |kids|
    ensures Listing(dir, kids[i..], sep)
         == [Join(dir, kids[i].name, sep)] + Below(Join(dir, kids[i].name, sep), kids[i], sep) + Listing(dir, kids[i + 1..], sep)
  {
    var rest := kids[i..];
    assert rest[0] == kids[i] && rest[1..] == kids[i + 1..];
  }

  /** One item is listed per entry at every level below the directory. */
  lemma {:induction false} ListingSize(dir: string, kids: seq<Node>, sep: char)
    ensures |Listing(dir, kids, sep)| == Count(kids)
    decreases kids
  {
    if |kids| > 0 {
      var item := Join(dir, kids[0].name, sep);
      if kids[0].Dir? {
        ListingSize(item, kids[0].children, sep);
      }
      ListingSize(dir, kids[1..], sep);
    }
  }

  // ---------------------------------------------------------------------
  // Relativisation: `lstrip` as written against prefix removal

  /** What `os.path.join(dir, name)` puts in front of a relative name:
      nothing for an empty `dir`, `dir` itself when it already ends with a
      separator, and `dir` plus a separator otherwise. */
  function DirPrefix(dir: string, sep: char): string
  {
    if |dir| == 0 || dir[|dir| - 1] == sep then dir else dir + [sep]
  }

  /** Joining a name that is not absolute is putting the directory prefix
      in front of it. */
  lemma JoinIsPrefixed(dir: string, name: string, sep: char)
    requires |name| == 0 || name[0] != sep
    ensures Join(dir, name, sep) == DirPrefix(dir, sep) + name
  {
  }

  /** `item` lies strictly below `dir`: it starts with the directory prefix,
      continues with a non-separator, and does not end with a separator. */
  predicate Under(dir: string, item: string, sep: char)
  {
    var p := DirPrefix(dir, sep);
    |item| > |p| && item[..|p|] == p && item[|p|] != sep && item[|item| - 1] != sep
  }

  lemma UnderTransitive(dir: string, mid: string, item: string, sep: char)
    requires Under(dir, mid, sep) && Under(mid, item, sep)
    ensures Under(dir, item, sep)
  {
    var p := DirPrefix(dir, sep);
    assert DirPrefix(mid, sep) == mid + [sep];
    assert item[..|mid| + 1][..|p|] == item[..|p|];
    assert (mid + [sep])[..|p|] == mid[..|p|];
    assert item[|p|] == item[..|mid| + 1][|p|];
  }

  /** Joining a name as `os.listdir` returns it gives a path strictly below
      the directory, whatever the directory is. */
  lemma JoinName(dir: string, name: string, sep: char)
    requires |name| > 0 && sep !in name
    ensures Join(dir, name, sep) == DirPrefix(dir, sep) + name
    ensures Under(dir, Join(dir, name, sep), sep)
  {
    JoinIsPrefixed(dir, name, sep);
    var p := DirPrefix(dir, sep);
    var item := p + name;
    assert item[..|p|] == p;
    assert item[|p|] == name[0];
    assert item[|item| - 1] == name[|name| - 1];
  }

  /** Every path the walk lists from `dir` lies strictly below `dir`. */
  lemma {:induction false} ListingUnder(dir: string, kids: seq<Node>, sep: char)
    requires ValidNames(kids, sep)
    ensures forall item :: item in Listing(dir, kids, sep) ==> Under(dir, item, sep)
    decreases kids
  {
    if |kids| > 0 {
      var n := kids[0];
      var item := Join(dir, n.name, sep);
      JoinName(dir, n.name, sep);
      if n.Dir? {
        ListingUnder(item, n.children, sep);
        forall x | x in Below(item, n, sep) ensures Under(dir, x, sep) {
          UnderTransitive(dir, item, x, sep);
        }
      }
      assert ValidNames(kids[1..], sep) by {
        forall i | 0 <= i < |kids[1..]| ensures kids[1..][i] == kids[i + 1] { }
      }
      ListingUnder(dir, kids[1..], sep);
    }
  }

  /** What the source evidently means to append: the item's path with the
      base directory's prefix (the base and one separator, unless the base
      is empty or already ends with one) removed as a PREFIX. */
  function RelativeIntended(base: string, item: string, sep: char): (r: string)
    ensures StartsWith(item, DirPrefix(base, sep)) ==> DirPrefix(base, sep) + r == item
  {
    StripPrefix(item, DirPrefix(base, sep))
  }

  /** The walk as evidently intended, started at the base directory itself:
      the same pre-order listing, with each path made relative by prefix
      removal. For names as `os.listdir` returns them, every appended
      string is non-empty, is not absolute, and joins back onto the base to
      give the entry's full path. */
  function TargetTreeIntended(base: string, root: Root, acc: seq<string>, sep: char): (r: Result<seq<string>>)
    ensures root.Missing? ==> r == Success(acc)
    ensures root.Exists? && root.node.File? ==> r.Failure?
    ensures r.Success? ==> acc <= r.value
    ensures root.Exists? && root.node.Dir? ==> r.Success? && |r.value| == |acc| + Count(root.node.children)
    ensures root.Exists? && root.node.Dir? ==> |r.value| == |acc| + |Listing(base, root.node.children, sep)|
    ensures root.Exists? && root.node.Dir? && ValidNames(root.node.children, sep) ==>
              forall k :: |acc| <= k < |r.value| ==>
                r.value[k] != "" && r.value[k][0] != sep
                && Join(base, r.value[k], sep) == Listing(base, root.node.children, sep)[k - |acc|]
  {
    match root
    case Missing => Success(acc)
    case Exists(File(_)) => Failure("Not a directory: " + base)
    case Exists(Dir(_, kids)) =>
      var items := Listing(base, kids, sep);
      ListingSize(base, kids, sep);
      var rels := seq(|items|, k requires 0 <= k < |items| => RelativeIntended(base, items[k], sep));
      assert ValidNames(kids, sep) ==>
               forall k :: 0 <= k < |items| ==>
                 rels[k] != "" && rels[k][0] != sep && Join(base, rels[k], sep) == items[k] by {
        if ValidNames(kids, sep) {
          forall k | 0 <= k < |items|
            ensures rels[k] != "" && rels[k][0] != sep && Join(base, rels[k], sep) == items[k]
          {
            IntendedRoundTrip(base, kids, sep, k);
          }
        }
      }
      Success(acc + rels)
  }

  /** Intended behaviour: walking from any `base` itself (empty, `/`, with
      or without a trailing separator), every relative path obtained by
      prefix removal is non-empty, does not start with a separator, and
      joins back onto `base` to give the entry's full path. */
  lemma IntendedRoundTrip(base: string, kids: seq<Node>, sep: char, k: nat)
    requires ValidNames(kids, sep)
    requires k < |Listing(base, kids, sep)|
    ensures RelativeIntended(base, Listing(base, kids, sep)[k], sep) != ""
    ensures RelativeIntended(base, Listing(base, kids, sep)[k], sep)[0] != sep
    ensures Join(base, RelativeIntended(base, Listing(base, kids, sep)[k], sep), sep) == Listing(base, kids, sep)[k]
  {
    var item := Listing(base, kids, sep)[k];
    ListingUnder(base, kids, sep);
    assert Under(base, item, sep);
    var p := DirPrefix(base, sep);
    var rel := RelativeIntended(base, item, sep);
    assert rel == item[|p|..];
    assert rel[0] == item[|p|];
    JoinIsPrefixed(base, rel, sep);
  }

  /** `s` is non-empty and its first character belongs to `chars`. */
  predicate StartsInSet(s: string, chars: set<char>)
  {
    |s| > 0 && s[0] in chars
  }

  /** As written, `lstrip` does not stop at the base directory: it keeps
      stripping into the first path component below it while the
      characters belong to `base_dir + os.sep`. For any entry of a walk
      started at the base whose relative path starts with such a character
      (a top-level `data.mkv` under `/data`, or a nested `tv/a.mkv`), the
      appended string is a proper suffix of the relative path, and joining
      it back onto the base does not give the entry's path. */
  lemma AsWrittenLosesLeadingChars(base: string, kids: seq<Node>, sep: char, k: nat)
    requires ValidNames(kids, sep)
    requires k < |Listing(base, kids, sep)|
    requires StartsInSet(RelativeIntended(base, Listing(base, kids, sep)[k], sep), StripSet(base, sep))
    ensures var rel := RelativeIntended(base, Listing(base, kids, sep)[k], sep);
            |Relative(base, Listing(base, kids, sep)[k], sep)| < |rel|
            && EndsWith(rel, Relative(base, Listing(base, kids, sep)[k], sep))
    ensures Join(base, Relative(base, Listing(base, kids, sep)[k], sep), sep) != Listing(base, kids, sep)[k]
  {
    IntendedRoundTrip(base, kids, sep, k);
    var s := Listing(base, kids, sep)[k];
    var p := DirPrefix(base, sep);
    var rel := RelativeIntended(base, s, sep);
    var cs := StripSet(base, sep);
    assert s == p + rel;
    PrefixInStripSet(base, sep);
    StripPastPrefix(p, rel, cs);
    var r := Relative(base, s, sep);
    assert sep in cs by { assert (base + [sep])[|base|] == sep; }
    assert |r| == 0 || r[0] != sep by { LStripIsLongestStrip(s, cs); }
    JoinIsPrefixed(base, r, sep);
    assert |Join(base, r, sep)| < |s|;
  }

  /** Every character of the directory prefix is in the strip set. */
  lemma PrefixInStripSet(base: string, sep: char)
    ensures forall i :: 0 <= i < |DirPrefix(base, sep)| ==> DirPrefix(base, sep)[i] in StripSet(base, sep)
  {
    var p := DirPrefix(base, sep);
    forall i | 0 <= i < |p| ensures p[i] in StripSet(base, sep) {
      assert p[i] == (base + [sep])[i];
    }
  }

  /** Stripping a character set from `p + rel`, where `p` lies wholly in the
      set and `rel` starts with a member of it, leaves a proper suffix of
      `rel`. */
  lemma StripPastPrefix(p: string, rel: string, cs: set<char>)
    requires forall i :: 0 <= i < |p| ==> p[i] in cs
    requires StartsInSet(rel, cs)
    ensures |LStrip(p + rel, cs)| < |rel| && EndsWith(rel, LStrip(p + rel, cs))
  {
    var s := p + rel;
    assert forall i :: 0 <= i < |p| + 1 ==> s[i] in cs;
    LStripSkips(s, cs, |p| + 1);
    assert s[|p| + 1..] == rel[1..];
    LStripIsLongestStrip(rel[1..], cs);
    assert EndsWith(rel, rel[1..]);
  }

  /** The converse: when the entry's path below the base does not start
      with a character of `base_dir + os.sep`, `lstrip` stops exactly at the
      end of the base's join prefix and records the intended relative path. */
  lemma AsWrittenAgreesOtherwise(base: string, kids: seq<Node>, sep: char, k: nat)
    requires ValidNames(kids, sep)
    requires k < |Listing(base, kids, sep)|
    requires !StartsInSet(RelativeIntended(base, Listing(base, kids, sep)[k], sep), StripSet(base, sep))
    ensures Relative(base, Listing(base, kids, sep)[k], sep) == RelativeIntended(base, Listing(base, kids, sep)[k], sep)
  {
    IntendedRoundTrip(base, kids, sep, k);
    ListingUnder(base, kids, sep);
    PrefixInStripSet(base, sep);
    var s := Listing(base, kids, sep)[k];
    var p := DirPrefix(base, sep);
    var rel := RelativeIntended(base, s, sep);
    LStripSkips(s, StripSet(base, sep), |p|);
    assert s[|p|..] == rel;
  }

  /** A concrete case: under base `/data`, the file `data.mkv` (full path
      `/data/data.mkv`) is recorded as `.mkv`. */
  lemma AsWrittenExample()
    ensures Relative("/data", "/data/data.mkv", '/') == ".mkv"
  {
    assert "/data" + ['/'] == "/data/";
    var cs := CharsOf("/data/");
    assert '/' in cs && 'd' in cs && 'a' in cs && 't' in cs && '.' !in cs;
    StripsToExtension(cs);
  }

  /** For the same file, prefix removal records `data.mkv`. */
  lemma IntendedExample()
    ensures RelativeIntended("/data", "/data/data.mkv", '/') == "data.mkv"
  {
    assert "/data" + ['/'] == "/data/";
    assert StartsWith("/data/data.mkv", "/data/");
  }

  lemma StripsToExtension(cs: set<char>)
    requires '/' in cs && 'd' in cs && 'a' in cs && 't' in cs && '.' !in cs
    ensures LStrip("/data/data.mkv", cs) == ".mkv"
  {
    var item := "/data/data.mkv";
    assert forall i :: 0 <= i < 10 ==> item[i] in cs;
    LStripSkips(item, cs, 10);
    assert item[10..] == ".mkv";
  }
}
