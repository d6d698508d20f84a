/**
 * Path collection: `get_paths` walks the input path recursively and lists
 * every file below it, depth first, in the order the directory listing gives
 * the entries.
 *
 * The filesystem below the input path is a tree of nodes; a directory's
 * children are in listing order. Paths are strings built the way POSIX
 * `os.path.join` builds them. Alongside the strings the walk is also described
 * on component lists (the entry names from the root down), which is where
 * "every file once, and no directory" is proved; `Render` connects the two.
 */
module PathWalk {
  import opened Seqs

  datatype Node = File(name: string) | Dir(name: string, children: seq<Node>)

  datatype Option<T> = None | Some(value: T)

  // ---------------------------------------------------------------------------
  // Path strings
  // ---------------------------------------------------------------------------

  /** POSIX `os.path.join(base, name)` for two parts. */
  function Join(base: string, name: string): (path: string)
    ensures |name| > 0 && name[0] == '/' ==> path == name
    ensures (|name| == 0 || name[0] != '/') ==> path == Prefix(base) + name
  {
    if |name| > 0 && name[0] == '/' then name
    else if base == [] || base[|base| - 1] == '/' then base + name
    else base + "/" + name
  }

  /** What `Join` puts before a relative name: nothing for an empty base, the
      base itself when it already ends with a separator, else base and '/'. */
  function Prefix(base: string): (pre: string)
    ensures base == [] ==> pre == []
    ensures base != [] ==> (pre == base || pre == base + "/") && pre[|pre| - 1] == '/'
  {
    if base == [] || base[|base| - 1] == '/' then base else base + "/"
  }

  /** An entry name as a directory listing gives it: not empty, no separator. */
  predicate PlainName(name: string)
  {
    |name| > 0 && '/' !in name
  }

  predicate PlainPath(p: seq<string>)
  {
    forall k :: 0 <= k < |p| ==> PlainName(p[k])
  }

  /** The string for the component list `p` below `base`, one `Join` per component. */
  function Render(base: string, p: seq<string>): string
    decreases |p|
  {
    if p == [] then base else Render(Join(base, p[0]), p[1..])
  }

  /** The components written with '/' between them. */
  function Joined(p: seq<string>): string
    requires p != []
    decreases |p|
  {
    if |p| == 1 then p[0] else p[0] + "/" + Joined(p[1..])
  }

  lemma {:induction false} JoinedLast(p: seq<string>)
    requires p != [] && PlainPath(p)
    ensures |Joined(p)| > 0 && Joined(p)[|Joined(p)| - 1] != '/'
    decreases |p|
  {
    if |p| > 1 {
      JoinedLast(p[1..]);
    } else {
      assert p[0][|p[0]| - 1] in p[0];
    }
  }

  /** Below any base, a plain component list renders as the base's prefix
      followed by the components joined with '/'. */
  lemma {:induction false} RenderClosedForm(base: string, p: seq<string>)
    requires p != [] && PlainPath(p)
    ensures Render(base, p) == Prefix(base) + Joined(p)
    decreases |p|
  {
    var a := p[0];
    assert PlainName(a) && a[0] in a && a[|a| - 1] in a;
    var next := Join(base, a);
    assert next == Prefix(base) + a;
    assert Render(base, p) == Render(next, p[1..]);
    if |p| > 1 {
      RenderClosedForm(next, p[1..]);
      assert next[|next| - 1] == a[|a| - 1];
      assert Prefix(next) == next + "/";
      assert Joined(p) == a + "/" + Joined(p[1..]);
      assert Render(base, p) == Prefix(base) + a + "/" + Joined(p[1..]);
    }
  }

  /** A plain name ends at the first '/' after it, so it can be read back. */
  lemma SplitAtSeparator(a: string, s: string, b: string, t: string)
    requires PlainName(a) && PlainName(b)
    requires a + "/" + s == b + "/" + t
    ensures a == b && s == t
  {
    var x := a + "/" + s;
    forall k | 0 <= k < |a|
      ensures x[k] != '/'
    {
      assert x[k] == a[k] && a[k] in a;
    }
    forall k | 0 <= k < |b|
      ensures x[k] != '/'
    {
      assert x[k] == b[k] && b[k] in b;
    }
    assert x[|a|] == '/' && x[|b|] == '/';
    assert |a| == |b|;
    assert a == x[..|a|] && b == x[..|b|];
    assert s == x[|a| + 1..] && t == x[|b| + 1..];
  }

  /** A joined path holds a separator exactly when it has two or more components. */
  lemma {:induction false} JoinedSeparator(p: seq<string>)
    requires p != [] && PlainPath(p)
    ensures '/' in Joined(p) <==> |p| > 1
  {
    assert PlainName(p[0]);
    if |p| > 1 {
      assert (p[0] + "/" + Joined(p[1..]))[|p[0]|] == '/';
    }
  }

  lemma {:induction false} JoinedInjective(p: seq<string>, q: seq<string>)
    requires p != [] && q != [] && PlainPath(p) && PlainPath(q)
    requires Joined(p) == Joined(q)
    ensures p == q
    decreases |p|
  {
    JoinedSeparator(p);
    JoinedSeparator(q);
    if |p| > 1 {
      SplitAtSeparator(p[0], Joined(p[1..]), q[0], Joined(q[1..]));
      JoinedInjective(p[1..], q[1..]);
      assert p == [p[0]] + p[1..] && q == [q[0]] + q[1..];
    }
  }

  /** Distinct plain component lists render as distinct strings below the same base. */
  lemma RenderInjective(base: string, p: seq<string>, q: seq<string>)
    requires PlainPath(p) && PlainPath(q)
    requires Render(base, p) == Render(base, q)
    ensures p == q
  {
    if p != [] {
      RenderClosedForm(base, p);
      JoinedLast(p);
    }
    if q != [] {
      RenderClosedForm(base, q);
      JoinedLast(q);
    }
    if p != [] && q != [] {
      assert Joined(p) == Render(base, p)[|Prefix(base)|..];
      assert Joined(q) == Render(base, q)[|Prefix(base)|..];
      JoinedInjective(p, q);
    }
  }

  // ---------------------------------------------------------------------------
  // The tree
  // ---------------------------------------------------------------------------

  /** A tree as a real filesystem has it: entry names are plain and the names
      in one directory are distinct. */
  predicate WellFormed(node: Node)
    decreases node
  {
    match node
    case File(_) => true
    case Dir(_, cs) =>
      (forall k :: 0 <= k < |cs| ==> PlainName(cs[k].name) && WellFormed(cs[k])) &&
      (forall k, l :: 0 <= k < l < |cs| ==> cs[k].name != cs[l].name)
  }

  /** Index of the first child called `name`, or `|cs|` when there is none. */
  function Find(cs: seq<Node>, name: string): (k: nat)
    ensures k <= |cs|
    ensures k < |cs| ==> cs[k].name == name
    ensures forall l :: 0 <= l < k ==> cs[l].name != name
    decreases |cs|
  {
    if cs == [] then 0
    else if cs[0].name == name then 0
    else 1 + Find(cs[1..], name)
  }

  /** The node a component list leads to from `node`, if any. */
  function Resolve(node: Node, p: seq<string>): Option<Node>
    decreases |p|
  {
    if p == [] then Some(node)
    else match node
      case File(_) => None
      case Dir(_, cs) =>
        var k := Find(cs, p[0]);
        if k < |cs| then Resolve(cs[k], p[1..]) else None
  }

  predicate IsFileAt(node: Node, p: seq<string>)
  {
    Resolve(node, p).Some? && Resolve(node, p).value.File?
  }

  /** Each component list of `ps` with `name` put in front. */
  function Prefixed(name: string, ps: seq<seq<string>>): (r: seq<seq<string>>)
    ensures |r| == |ps|
    ensures forall i :: 0 <= i < |r| ==> r[i] == [name] + ps[i]
  {
    seq(|ps|, i requires 0 <= i < |ps| => [name] + ps[i])
  }

  /** The component lists of the files below `node`, depth first in listing
      order; a file is its own single, empty path. */
  function Walk(node: Node): seq<seq<string>>
    decreases node, 1
  {
    match node
    case File(_) => [[]]
    case Dir(_, _) => Flatten(WalkGroups(node))
  }

  /** For each child of `dir`, the component lists of the files below it. */
  function WalkGroups(dir: Node): (groups: seq<seq<seq<string>>>)
    requires dir.Dir?
    ensures |groups| == |dir.children|
    decreases dir, 0
  {
    seq(|dir.children|, k requires 0 <= k < |dir.children| =>
      Prefixed(dir.children[k].name, Walk(dir.children[k])))
  }

  /** The path strings `get_paths` returns for `node` found at `base`: the
      path itself for a file, else the paths from each entry, in listing order. */
  function Leaves(base: string, node: Node): (paths: seq<string>)
    ensures node.File? ==> paths == [base]
    decreases node, 1
  {
    match node
    case File(_) => [base]
    case Dir(_, _) => Flatten(LeafGroups(base, node))
  }

  /** For each entry of `dir`, the paths `get_paths` collects from it. */
  function LeafGroups(base: string, dir: Node): (groups: seq<seq<string>>)
    requires dir.Dir?
    ensures |groups| == |dir.children|
    decreases dir, 0
  {
    seq(|dir.children|, k requires 0 <= k < |dir.children| =>
      Leaves(Join(base, dir.children[k].name), dir.children[k]))
  }

  // ---------------------------------------------------------------------------
  // What the walk returns
  // ---------------------------------------------------------------------------

  /** In a directory whose entry names are distinct, the first child called
      like entry `k` is entry `k`. */
  lemma FindDistinct(dir: Node, k: nat)
    requires WellFormed(dir) && dir.Dir? && k < |dir.children|
    ensures Find(dir.children, dir.children[k].name) == k
  {
    var cs := dir.children;
    var f := Find(cs, cs[k].name);
    assert f <= k;
    assert forall l :: 0 <= l < k ==> cs[l].name != cs[k].name;
  }

  /** Walked paths lead to files. */
  lemma {:induction false} WalkSound(node: Node, p: seq<string>)
    requires WellFormed(node) && p in Walk(node)
    ensures IsFileAt(node, p)
    decreases node
  {
    if node.Dir? {
      var cs := node.children;
      var groups := WalkGroups(node);
      FlattenMember(groups, p);
      var k :| 0 <= k < |groups| && p in groups[k];
      var i :| 0 <= i < |groups[k]| && groups[k][i] == p;
      var q := Walk(cs[k])[i];
      assert p == [cs[k].name] + q;
      FindDistinct(node, k);
      assert Resolve(node, p) == Resolve(cs[k], q);
      WalkSound(cs[k], q);
    }
  }

  /** Every path that leads to a file is walked. */
  lemma {:induction false} WalkComplete(node: Node, p: seq<string>)
    requires WellFormed(node) && IsFileAt(node, p)
    ensures p in Walk(node)
    decreases node
  {
    if node.Dir? {
      var cs := node.children;
      var groups := WalkGroups(node);
      assert p != [];
      var k := Find(cs, p[0]);
      assert k < |cs| && Resolve(node, p) == Resolve(cs[k], p[1..]);
      WalkComplete(cs[k], p[1..]);
      var i :| 0 <= i < |Walk(cs[k])| && Walk(cs[k])[i] == p[1..];
      assert groups[k][i] == [cs[k].name] + p[1..] == p;
      FlattenMember(groups, p);
    }
  }

  /** The component lists of a well-formed tree's walk are exactly the paths
      that lead to a file: every file is listed, and no directory is. */
  lemma WalkIsFiles(node: Node, p: seq<string>)
    requires WellFormed(node)
    ensures p in Walk(node) <==> IsFileAt(node, p)
  {
    if p in Walk(node) {
      WalkSound(node, p);
    }
    if IsFileAt(node, p) {
      WalkComplete(node, p);
    }
  }

  /** Every component of a listed path is an entry name. */
  lemma {:induction false} WalkIsPlain(node: Node, p: seq<string>)
    requires WellFormed(node) && p in Walk(node)
    ensures PlainPath(p)
    decreases node
  {
    match node
    case File(_) =>
    case Dir(_, cs) =>
      var groups := WalkGroups(node);
      FlattenMember(groups, p);
      var k :| 0 <= k < |groups| && p in groups[k];
      var i :| 0 <= i < |groups[k]| && groups[k][i] == p;
      WalkIsPlain(cs[k], Walk(cs[k])[i]);
  }

  /** A well-formed tree's walk lists no path twice. */
  lemma {:induction false} WalkNoDuplicates(node: Node)
    requires WellFormed(node)
    ensures NoDuplicates(Walk(node))
    decreases node
  {
    match node
    case File(_) =>
    case Dir(_, cs) =>
      var groups := WalkGroups(node);
      forall k | 0 <= k < |groups|
        ensures NoDuplicates(groups[k])
      {
        WalkNoDuplicates(cs[k]);
        var ws := Walk(cs[k]);
        forall i, j | 0 <= i < j < |groups[k]|
          ensures groups[k][i] != groups[k][j]
        {
          assert groups[k][i][1..] == ws[i] && groups[k][j][1..] == ws[j];
        }
      }
      forall k, l, x | 0 <= k < l < |groups| && x in groups[k]
        ensures x !in groups[l]
      {
        assert x[0] == cs[k].name;
        assert forall y :: y in groups[l] ==> y[0] == cs[l].name;
      }
      FlattenNoDuplicates(groups);
  }

  /** The strings of a component-list walk. */
  function RenderAll(base: string, ps: seq<seq<string>>): (paths: seq<string>)
    ensures |paths| == |ps|
    ensures forall i :: 0 <= i < |ps| ==> paths[i] == Render(base, ps[i])
  {
    seq(|ps|, i requires 0 <= i < |ps| => Render(base, ps[i]))
  }

  lemma RenderAllConcat(base: string, a: seq<seq<string>>, b: seq<seq<string>>)
    ensures RenderAll(base, a + b) == RenderAll(base, a) + RenderAll(base, b)
  {
    var l, r := RenderAll(base, a + b), RenderAll(base, a) + RenderAll(base, b);
    forall i | 0 <= i < |l|
      ensures l[i] == r[i]
    {
      if i < |a| {
        assert (a + b)[i] == a[i];
      } else {
        assert (a + b)[i] == b[i - |a|];
      }
    }
  }

  lemma {:induction false} RenderAllFlatten(base: string, groups: seq<seq<seq<string>>>, strings: seq<seq<string>>)
    requires |strings| == |groups|
    requires forall k :: 0 <= k < |groups| ==> strings[k] == RenderAll(base, groups[k])
    ensures Flatten(strings) == RenderAll(base, Flatten(groups))
    decreases |groups|
  {
    if groups != [] {
      var n := |groups| - 1;
      RenderAllFlatten(base, groups[..n], strings[..n]);
      RenderAllConcat(base, Flatten(groups[..n]), groups[n]);
      assert Flatten(groups) == Flatten(groups[..n]) + groups[n];
      assert Flatten(strings) == Flatten(strings[..n]) + strings[n];
    }
  }

  /** `get_paths` returns, for each file path of the component walk and in
      the same order, its string below `base`. */
  lemma {:induction false} LeavesRender(base: string, node: Node)
    ensures Leaves(base, node) == RenderAll(base, Walk(node))
    decreases node
  {
    match node
    case File(_) =>
    case Dir(_, cs) =>
      var groups := WalkGroups(node);
      var strings := LeafGroups(base, node);
      forall k | 0 <= k < |groups|
        ensures strings[k] == RenderAll(base, groups[k])
      {
        var c := cs[k];
        LeavesRender(Join(base, c.name), c);
        assert forall i :: 0 <= i < |groups[k]| ==> Render(base, groups[k][i]) == Render(Join(base, c.name), Walk(c)[i]) by {
          forall i | 0 <= i < |groups[k]|
            ensures Render(base, groups[k][i]) == Render(Join(base, c.name), Walk(c)[i])
          {
            assert groups[k][i][0] == c.name && groups[k][i][1..] == Walk(c)[i];
          }
        }
      }
      RenderAllFlatten(base, groups, strings);
  }

  /** In a well-formed tree, `get_paths` returns each file exactly once: a
      plain component list renders to a returned path exactly when it leads to
      a file (so never to a directory), and no path is returned twice. */
  lemma LeavesAreFiles(base: string, root: Node)
    requires WellFormed(root)
    ensures NoDuplicates(Leaves(base, root))
    ensures |Leaves(base, root)| == |Walk(root)|
    ensures forall p :: PlainPath(p) ==> (Render(base, p) in Leaves(base, root) <==> IsFileAt(root, p))
  {
    LeavesRender(base, root);
    WalkNoDuplicates(root);
    var paths := Leaves(base, root);
    var ws := Walk(root);
    forall i, j | 0 <= i < j < |paths|
      ensures paths[i] != paths[j]
    {
      WalkIsPlain(root, ws[i]);
      WalkIsPlain(root, ws[j]);
      if paths[i] == paths[j] {
        RenderInjective(base, ws[i], ws[j]);
      }
    }
    forall p | PlainPath(p)
      ensures Render(base, p) in paths <==> IsFileAt(root, p)
    {
      WalkIsFiles(root, p);
      if Render(base, p) in paths {
        var i :| 0 <= i < |paths| && paths[i] == Render(base, p);
        WalkIsPlain(root, ws[i]);
        RenderInjective(base, ws[i], p);
      }
      if IsFileAt(root, p) {
        var i :| 0 <= i < |ws| && ws[i] == p;
        assert paths[i] == Render(base, p);
      }
    }
  }

  /** `get_paths(base)` for the node found at `base`: a file gives `[base]`;
      a directory gives, entry by entry in listing order, the entry's path when
      it is a file and everything below it when it is a directory. */
  method GetPaths(base: string, root: Node) returns (paths: seq<string>)
    ensures paths == Leaves(base, root)
    decreases root
  {
    paths := [];
    if root.Dir? {
      var children := root.children;
      for k := 0 to |children|
        invariant paths == Flatten(LeafGroups(base, root)[..k])
      {
        var newPath := Join(base, children[k].name);
        if children[k].Dir? {
          var sub := GetPaths(newPath, children[k]);
          paths := paths + sub;
        } else {
          paths := paths + [newPath];
        }
        assert LeafGroups(base, root)[..k + 1][..k] == LeafGroups(base, root)[..k];
      }
      assert LeafGroups(base, root)[..|children|] == LeafGroups(base, root);
    } else {
      paths := paths + [base];
    }
  }
}
