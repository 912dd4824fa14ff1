/** Building an image reproduces the tree: collect_entries followed by populate_image. */
module ImageReplay {
  import opened MachineInts
  import opened Permutations
  import opened ImageTree

  // ----- the order of the children

  lemma {:induction false} LessIrreflexive(s: string)
    ensures !Less(s, s)
  {
    if s != "" { LessIrreflexive(s[1..]); }
  }

  lemma {:induction false} LessTransitive(s: string, t: string, u: string)
    requires Less(s, t) && Less(t, u)
    ensures Less(s, u)
    decreases |s|
  {
    if s != "" && s[0] == t[0] && t[0] == u[0] { LessTransitive(s[1..], t[1..], u[1..]); }
  }

  lemma {:induction false} LessTotal(s: string, t: string)
    ensures s == t || Less(s, t) || Less(t, s)
    decreases |s|
  {
    if s != "" && t != "" && s[0] == t[0] {
      LessTotal(s[1..], t[1..]);
      assert s == [s[0]] + s[1..] && t == [t[0]] + t[1..];
    }
  }

  /** a does not come after b, and b does not come after c. */
  lemma BeforeNegTransitive(a: Node, b: Node, c: Node)
    requires !Before(b, a) && !Before(c, b)
    ensures !Before(c, a)
  {
    if a.Dir? == b.Dir? == c.Dir? {
      var x, y, z := Upper(a.name), Upper(b.name), Upper(c.name);
      LessTotal(x, y);
      LessTotal(y, z);
      if x != y && y != z { LessTransitive(x, y, z); }
      if Less(z, x) {
        LessIrreflexive(x);
        if x != y && y != z { LessTransitive(x, z, x); }
      }
    }
  }

  /** Neighbours are in order: directories first, then by upper-cased name. */
  predicate InOrder(ns: seq<Node>) { forall i | 0 <= i < |ns| - 1 :: !Before(ns[i + 1], ns[i]) }

  lemma BeforeAsymmetric(a: Node, b: Node)
    requires Before(a, b)
    ensures !Before(b, a)
  {
    var x, y := Upper(a.name), Upper(b.name);
    if a.Dir? == b.Dir? && Less(y, x) {
      LessTransitive(x, y, x);
      LessIrreflexive(x);
    }
  }

  lemma {:induction false} InsertInOrder(n: Node, ns: seq<Node>)
    requires InOrder(ns)
    ensures InOrder(Insert(n, ns))
    decreases |ns|
  {
    hide Before;
    if ns != [] && Before(ns[0], n) {
      var t := ns[1..];
      forall i | 0 <= i < |t| - 1
        ensures !Before(t[i + 1], t[i])
      {
        assert t[i] == ns[i + 1] && t[i + 1] == ns[i + 2];
      }
      InsertInOrder(n, ns[1..]);
      BeforeAsymmetric(ns[0], n);
      var r := Insert(n, ns[1..]);
      assert r[0] == n || r[0] == ns[1..][0];
    }
  }

  /** The children are visited in sorted order. */
  lemma {:induction false} VisitedInOrder(ns: seq<Node>)
    ensures InOrder(Sorted(ns))
    ensures forall i, j | 0 <= i < j < |Sorted(ns)| :: !Before(Sorted(ns)[j], Sorted(ns)[i])
  {
    hide Before;
    if ns != [] {
      VisitedInOrder(ns[1..]);
      InsertInOrder(ns[0], Sorted(ns[1..]));
    }
    forall i, j | 0 <= i < j < |Sorted(ns)|
      ensures !Before(Sorted(ns)[j], Sorted(ns)[i])
    {
      OrderedApart(Sorted(ns), i, j);
    }
  }

  lemma {:induction false} OrderedApart(ns: seq<Node>, i: nat, j: nat)
    requires InOrder(ns) && i < j < |ns|
    ensures !Before(ns[j], ns[i])
    decreases j - i
  {
    hide Before;
    if i + 1 < j {
      OrderedApart(ns, i + 1, j);
      assert !Before(ns[i + 1], ns[i]);
      BeforeNegTransitive(ns[i], ns[i + 1], ns[j]);
    }
  }

  // ----- which trees can be collected

  /** Every name that is not ignored, in every directory that is not ignored, is an 8.3 name. */
  predicate AllNamesValid(ns: seq<Node>) {
    forall n | n in ns && !Ignored(n.name) ::
      Fat83(Upper(n.name)) && (n.Dir? ==> AllNamesValid(n.children))
  }

  lemma {:induction false} CollectsIff(ns: seq<Node>, dir: Path)
    ensures Collect(ns, dir).Some? <==> AllNamesValid(ns)
    decreases SizeAll(ns), 1, 0
  {
    CollectsVisitedIff(Visited(ns), dir);
  }

  lemma {:induction false} CollectsVisitedIff(ns: seq<Node>, dir: Path)
    ensures CollectVisited(ns, dir).Some? <==>
      forall n | n in ns :: Fat83(Upper(n.name)) && (n.Dir? ==> AllNamesValid(n.children))
    decreases SizeAll(ns), 0, |ns|
  {
    hide Fat83, Upper, Ignored, Visited;
    if ns != [] {
      var n := ns[0];
      assert ns == [n] + ns[1..];
      assert SizeAll(ns) == Size(n) + SizeAll(ns[1..]) && (n.Dir? ==> Size(n) == 1 + SizeAll(n.children));
      if n.Dir? { CollectsIff(n.children, dir + [Upper(n.name)]); }
      CollectsVisitedIff(ns[1..], dir);
    }
  }

  // ----- slash-joined texts against sequences of names

  predicate PlainPaths(es: seq<ImageEntry>) { forall e | e in es :: PlainPath(e.path) }

  lemma {:induction false} CollectedPathsPlain(ns: seq<Node>, dir: Path)
    requires PlainPath(dir) && Collect(ns, dir).Some?
    ensures PlainPaths(Collect(ns, dir).value)
    decreases SizeAll(ns), 1, 0
  {
    CollectedVisitedPlain(Visited(ns), dir);
  }

  lemma {:induction false} CollectedVisitedPlain(ns: seq<Node>, dir: Path)
    requires PlainPath(dir) && CollectVisited(ns, dir).Some?
    ensures PlainPaths(CollectVisited(ns, dir).value)
    decreases SizeAll(ns), 0, |ns|
  {
    hide Fat83, Upper, Plain, Visited;
    if ns != [] {
      var n, here := ns[0], dir + [Upper(ns[0].name)];
      assert SizeAll(ns) == Size(n) + SizeAll(ns[1..]) && (n.Dir? ==> Size(n) == 1 + SizeAll(n.children));
      FatNamesArePlain(Upper(n.name));
      assert PlainPath(here);
      if n.Dir? { CollectedPathsPlain(n.children, here); }
      CollectedVisitedPlain(ns[1..], dir);
    }
  }

  /** The texts handed to the tools name two entries alike exactly when their places are the same. */
  lemma TextsNamePlaces(ns: seq<Node>, a: ImageEntry, b: ImageEntry)
    requires Collect(ns, []).Some? && a in Collect(ns, []).value && b in Collect(ns, []).value
    ensures PathText(a.path) == PathText(b.path) <==> a.path == b.path
  {
    CollectedPathsPlain(ns, []);
    hide Collect, PathText;
    if PathText(a.path) == PathText(b.path) { PathTextInjective(a.path, b.path); }
  }

  // ----- where each entry goes

  /** The tree has this content at this place: hidden files left out, names upper-cased. */
  ghost predicate InTree(ns: seq<Node>, p: Path, c: Content)
    decreases |p|
  {
    p != [] && exists n :: n in ns && !Ignored(n.name) && Upper(n.name) == p[0] && At(n, p, c)
  }

  ghost predicate At(n: Node, p: Path, c: Content)
    requires p != []
    decreases |p|, 0
  {
    if |p| == 1 then c == ContentOf(n) else n.Dir? && InTree(n.children, p[1..], c)
  }

  function Names(ns: seq<Node>): (r: seq<string>)
    ensures |r| == |ns| && forall i | 0 <= i < |ns| :: r[i] == Upper(ns[i].name)
  {
    if ns == [] then [] else [Upper(ns[0].name)] + Names(ns[1..])
  }

  predicate NoRepeats(s: seq<string>) { forall x | x in s :: multiset(s)[x] == 1 }

  /** In every directory the kept names differ after upper-casing. */
  ghost predicate NoClashes(ns: seq<Node>) {
    NoRepeats(Names(Kept(ns))) && forall n | n in ns && !Ignored(n.name) && n.Dir? :: NoClashes(n.children)
  }

  ghost predicate NoClashesVisited(ns: seq<Node>) {
    NoRepeats(Names(ns)) && forall n | n in ns && n.Dir? :: NoClashes(n.children)
  }

  lemma {:induction false} NamesOfMultiset(a: seq<Node>, b: seq<Node>)
    requires multiset(a) == multiset(b)
    ensures multiset(Names(a)) == multiset(Names(b))
    decreases |a|
  {
    hide Upper, Names;
    if a == [] {
      NoneMatches(b);
    } else {
      var k := Matching(a, b);
      var rest := b[..k] + b[k + 1..];
      NamesOfMultiset(a[1..], rest);
      FirstName(a);
      var pre, post := NamesWithout(b, k);
      PickOut(pre, Upper(a[0].name), post);
    }
  }

  lemma NoneMatches(b: seq<Node>)
    requires multiset(b) == multiset{}
    ensures b == []
  {
    assert |multiset(b)| == |b|;
  }

  /** Some element of b is the first of a, and the others of both are the same. */
  lemma Matching(a: seq<Node>, b: seq<Node>) returns (k: nat)
    requires a != [] && multiset(a) == multiset(b)
    ensures k < |b| && b[k] == a[0] && multiset(a[1..]) == multiset(b[..k] + b[k + 1..])
  {
    assert a == [a[0]] + a[1..];
    assert a[0] in multiset(b);
    k :| 0 <= k < |b| && b[k] == a[0];
    RemovedOne(b, k);
    assert multiset(a[1..]) == multiset(a) - multiset{a[0]};
  }

  lemma FirstName(a: seq<Node>)
    requires a != []
    ensures multiset(Names(a)) == multiset{Upper(a[0].name)} + multiset(Names(a[1..]))
  {
    hide Upper;
    assert Names(a) == [Upper(a[0].name)] + Names(a[1..]);
  }

  /** The names with and without element k, around it. */
  lemma NamesWithout(b: seq<Node>, k: nat) returns (pre: seq<string>, post: seq<string>)
    requires k < |b|
    ensures Names(b) == pre + [Upper(b[k].name)] + post && Names(b[..k] + b[k + 1..]) == pre + post
  {
    hide Upper, Names;
    pre, post := Names(b[..k]), Names(b[k + 1..]);
    assert b == b[..k] + [b[k]] + b[k + 1..];
    NamesSplit(b[..k], b[k], b[k + 1..]);
    NamesConcat(b[..k], b[k + 1..]);
  }

  lemma PickOut(pre: seq<string>, x: string, post: seq<string>)
    ensures multiset(pre + [x] + post) == multiset{x} + multiset(pre + post)
  {
  }

  lemma NamesSplit(pre: seq<Node>, x: Node, post: seq<Node>)
    ensures Names(pre + [x] + post) == Names(pre) + [Upper(x.name)] + Names(post)
  {
    hide Upper, Names;
    NamesConcat(pre + [x], post);
    NamesConcat(pre, [x]);
    assert Names([x]) == [Upper(x.name)];
  }

  lemma NamesConcat(a: seq<Node>, b: seq<Node>)
    ensures Names(a + b) == Names(a) + Names(b)
  {
    hide Upper, Names;
    var t, u := Names(a + b), Names(a) + Names(b);
    assert |t| == |u|;
    forall i | 0 <= i < |t|
      ensures t[i] == u[i]
    {
      assert t[i] == Upper((a + b)[i].name);
    }
  }

  lemma NoRepeatsPermuted(s: seq<string>, t: seq<string>)
    requires multiset(s) == multiset(t)
    ensures NoRepeats(s) <==> NoRepeats(t)
  {
    assert forall x :: x in s <==> x in multiset(s);
    assert forall x :: x in t <==> x in multiset(t);
  }

  lemma NoClashesOfVisited(ns: seq<Node>)
    ensures NoClashes(ns) <==> NoClashesVisited(Visited(ns))
  {
    hide Upper, Ignored, NoRepeats, Names, Kept;
    var v := Visited(ns);
    NamesOfMultiset(Kept(ns), v);
    NoRepeatsPermuted(Names(Kept(ns)), Names(v));
  }

  lemma NoRepeatsTail(s: seq<string>)
    requires s != []
    ensures NoRepeats(s) <==> s[0] !in s[1..] && NoRepeats(s[1..])
  {
    var t := s[1..];
    assert s == [s[0]] + t;
    assert multiset(s) == multiset{s[0]} + multiset(t);
    assert forall x :: x in t <==> x in multiset(t);
    if NoRepeats(s) {
      assert s[0] in s && multiset(s)[s[0]] == 1;
      assert forall x | x in t :: x in s && multiset(t)[x] == multiset(s)[x];
    }
    if s[0] !in t && NoRepeats(t) {
      assert forall x | x in s :: x == s[0] || x in t;
    }
  }

  lemma NoClashesTail(ns: seq<Node>)
    requires ns != []
    ensures NoClashesVisited(ns) <==>
      Upper(ns[0].name) !in Names(ns[1..]) && NoClashesVisited(ns[1..]) && (ns[0].Dir? ==> NoClashes(ns[0].children))
  {
    hide Upper, NoClashes;
    assert ns == [ns[0]] + ns[1..];
    NoRepeatsTail(Names(ns));
  }

  // ----- replaying the list

  /** Nothing is at or below dir/name yet. */
  ghost predicate Free(image: Image, dir: Path, name: string) {
    forall p | p in image :: !(|p| > |dir| && p[..|dir|] == dir && p[|dir|] == name)
  }

  ghost predicate Has(image: Image, p: Path, c: Content) { p in image && image[p] == c }

  ghost predicate InVisited(ns: seq<Node>, p: Path, c: Content)
    requires p != []
  {
    exists n :: n in ns && Upper(n.name) == p[0] && At(n, p, c)
  }

  /** The place p, with content c, is one of those that ns contributes to dir. */
  ghost predicate Below(ns: seq<Node>, dir: Path, p: Path, c: Content) {
    |p| > |dir| && p[..|dir|] == dir && InVisited(ns, p[|dir|..], c)
  }

  /** The image grew by exactly the places of ns under dir. */
  ghost predicate Grew(before: Image, after: Image, ns: seq<Node>, dir: Path) {
    forall p, c :: Has(after, p, c) <==> Has(before, p, c) || Below(ns, dir, p, c)
  }

  lemma VisitedInTree(ns: seq<Node>, p: Path, c: Content)
    requires p != []
    ensures InVisited(Visited(ns), p, c) <==> InTree(ns, p, c)
  {
    hide At, Upper, Ignored;
  }

  lemma PlaceNew(image: Image, dir: Path, name: string, c: Content)
    requires IsDirectory(image, dir) && Free(image, dir, name)
    ensures Place(image, ImageEntry(dir + [name], c)) == Some(image[dir + [name] := c])
  {
    assert (dir + [name])[..|dir + [name]| - 1] == dir;
    assert dir + [name] !in image;
  }

  /** One child and everything below it, then the rest. */
  lemma {:induction false} PopulateChildren(image: Image, ns: seq<Node>, dir: Path) returns (after: Image)
    requires CollectVisited(ns, dir).Some? && NoClashesVisited(ns) && IsDirectory(image, dir)
    requires forall n | n in ns :: Free(image, dir, Upper(n.name))
    ensures Populate(image, CollectVisited(ns, dir).value) == Some(after)
    ensures Grew(image, after, ns, dir)
    decreases SizeAll(ns), 0, |ns|
  {
    hide *;
    if ns == [] {
      after := image;
      NothingToPlace(image, dir);
    } else {
      var n := ns[0];
      var name := Upper(n.name);
      var here := dir + [name];
      FirstChild(ns, dir);
      var placed := image[here := ContentOf(n)];
      PlaceNew(image, dir, name, ContentOf(n)) by { InSelf(ns); }
      var middle := placed;
      NothingToPlace(placed, here);
      if n.Dir? {
        BelowIsFree(image, dir, n);
        middle := PopulateTree(placed, n.children, here);
      }
      ChildGrew(image, placed, middle, n, dir);
      RestIsFree(image, middle, ns, dir);
      after := PopulateChildren(middle, ns[1..], dir);
      GrewTwice(image, middle, after, ns, dir);
      ReplayParts(image, placed, middle, ns, dir);
    }
  }

  lemma {:induction false} PopulateTree(image: Image, ns: seq<Node>, dir: Path) returns (after: Image)
    requires Collect(ns, dir).Some? && NoClashes(ns) && IsDirectory(image, dir)
    requires forall p | p in image :: !(|p| > |dir| && p[..|dir|] == dir)
    ensures Populate(image, Collect(ns, dir).value) == Some(after)
    ensures Grew(image, after, Visited(ns), dir)
    decreases SizeAll(ns), 1, 0
  {
    NoClashesOfVisited(ns);
    assert forall n | n in Visited(ns) :: Free(image, dir, Upper(n.name));
    after := PopulateChildren(image, Visited(ns), dir);
  }

  lemma InSelf(ns: seq<Node>)
    requires ns != []
    ensures ns[0] in ns
  {
  }

  lemma NothingToPlace(image: Image, dir: Path)
    ensures CollectVisited([], dir) == Some([]) && Populate(image, []) == Some(image)
    ensures Grew(image, image, [], dir)
  {
  }

  /** How the list of a non-empty directory splits. */
  lemma FirstChild(ns: seq<Node>, dir: Path)
    requires ns != [] && CollectVisited(ns, dir).Some?
    ensures var n, here := ns[0], dir + [Upper(ns[0].name)];
      && CollectVisited(ns[1..], dir).Some?
      && (n.Dir? ==> Collect(n.children, here).Some?)
      && CollectVisited(ns, dir).value ==
           [ImageEntry(here, ContentOf(n))] + (if n.Dir? then Collect(n.children, here).value else [])
           + CollectVisited(ns[1..], dir).value
    ensures SizeAll(ns) == Size(ns[0]) + SizeAll(ns[1..]) && Size(ns[0]) >= 1
    ensures ns[0].Dir? ==> Size(ns[0]) == 1 + SizeAll(ns[0].children)
    ensures NoClashesVisited(ns) ==> NoClashesVisited(ns[1..]) && (ns[0].Dir? ==> NoClashes(ns[0].children))
  {
    NoClashesTail(ns);
    hide Upper, Fat83, NoClashes, NoClashesVisited, Visited;
  }

  lemma LongerPrefix(p: Path, dir: Path, name: string)
    ensures |p| > |dir| && p[..|dir| + 1] == dir + [name] <==> |p| > |dir| && p[..|dir|] == dir && p[|dir|] == name
  {
    if |p| > |dir| {
      assert p[..|dir| + 1] == p[..|dir|] + [p[|dir|]];
      assert (p[..|dir|] + [p[|dir|]])[..|dir|] == p[..|dir|];
      assert (dir + [name])[..|dir|] == dir;
    }
  }

  lemma BelowIsFree(image: Image, dir: Path, n: Node)
    requires IsDirectory(image, dir) && Free(image, dir, Upper(n.name)) && n.Dir?
    ensures var here := dir + [Upper(n.name)];
      var placed := image[here := ContentOf(n)];
      IsDirectory(placed, here) && forall p | p in placed :: !(|p| > |here| && p[..|here|] == here)
  {
    hide Upper;
    var here := dir + [Upper(n.name)];
    forall p | p in image
      ensures !(|p| > |here| && p[..|here|] == here)
    {
      LongerPrefix(p, dir, Upper(n.name));
    }
  }

  /** Placing a child and what is below it adds exactly the places of that child. */
  lemma ChildGrew(image: Image, placed: Image, middle: Image, n: Node, dir: Path)
    requires var here := dir + [Upper(n.name)];
      && placed == image[here := ContentOf(n)] && Free(image, dir, Upper(n.name))
      && (if n.Dir? then Grew(placed, middle, Visited(n.children), here) else middle == placed)
    ensures Grew(image, middle, [n], dir)
  {
    hide Upper, Visited, InTree, InVisited;
    var here := dir + [Upper(n.name)];
    assert here !in image by { LongerPrefix(here, dir, Upper(n.name)); }
    forall p, c
      ensures Has(middle, p, c) <==> Has(image, p, c) || Below([n], dir, p, c)
    {
      ChildAt(n, dir, p, c);
      assert Has(placed, p, c) <==> Has(image, p, c) || (p == here && c == ContentOf(n));
      if n.Dir? && |p| > |here| && p[..|here|] == here {
        VisitedInTree(n.children, p[|here|..], c);
      }
    }
  }

  /** A place below dir belongs to n if it is n's own, or lies inside n. */
  lemma ChildAt(n: Node, dir: Path, p: Path, c: Content)
    ensures var here := dir + [Upper(n.name)];
      Below([n], dir, p, c) <==>
        (p == here && c == ContentOf(n)) || (n.Dir? && |p| > |here| && p[..|here|] == here && InTree(n.children, p[|here|..], c))
  {
    hide Upper, InTree;
    var here := dir + [Upper(n.name)];
    LongerPrefix(p, dir, Upper(n.name));
    if |p| > |dir| && p[..|dir|] == dir {
      var q := p[|dir|..];
      assert InVisited([n], q, c) <==> Upper(n.name) == q[0] && At(n, q, c) by {
        assert n in [n];
      }
      assert q[0] == p[|dir|] && q[1..] == p[|here|..];
      assert p == dir + q;
      assert |q| == 1 ==> q == [q[0]];
    }
  }

  lemma RestIsFree(image: Image, middle: Image, ns: seq<Node>, dir: Path)
    requires ns != [] && NoClashesVisited(ns) && IsDirectory(image, dir) && Grew(image, middle, [ns[0]], dir)
    requires forall n | n in ns :: Free(image, dir, Upper(n.name))
    ensures IsDirectory(middle, dir) && forall n | n in ns[1..] :: Free(middle, dir, Upper(n.name))
  {
    NoClashesTail(ns);
    hide Upper, At, NoClashesVisited, Names;
    assert dir != [] ==> Has(image, dir, Directory) && Has(middle, dir, Directory);
    forall n | n in ns[1..]
      ensures Free(middle, dir, Upper(n.name))
    {
      assert n in ns;
      var k :| 0 <= k < |ns[1..]| && ns[1..][k] == n;
      assert Names(ns[1..])[k] == Upper(n.name);
      StillFree(image, middle, ns[0], dir, Upper(n.name));
    }
  }

  lemma StillFree(image: Image, middle: Image, first: Node, dir: Path, name: string)
    requires Free(image, dir, name) && Grew(image, middle, [first], dir) && Upper(first.name) != name
    ensures Free(middle, dir, name)
  {
    hide Upper, At;
    forall p | p in middle
      ensures !(|p| > |dir| && p[..|dir|] == dir && p[|dir|] == name)
    {
      assert Has(middle, p, middle[p]);
    }
  }

  lemma GrewTwice(image: Image, middle: Image, after: Image, ns: seq<Node>, dir: Path)
    requires ns != [] && Grew(image, middle, [ns[0]], dir) && Grew(middle, after, ns[1..], dir)
    ensures Grew(image, after, ns, dir)
  {
    hide Upper, At, Has;
    assert ns == [ns[0]] + ns[1..];
    forall p, c
      ensures Below(ns, dir, p, c) <==> Below([ns[0]], dir, p, c) || Below(ns[1..], dir, p, c)
    {
    }
    hide Below;
  }

  lemma ReplayParts(image: Image, placed: Image, middle: Image, ns: seq<Node>, dir: Path)
    requires ns != [] && CollectVisited(ns, dir).Some?
    requires var n, here := ns[0], dir + [Upper(ns[0].name)];
      && Place(image, ImageEntry(here, ContentOf(n))) == Some(placed)
      && (n.Dir? ==> Collect(n.children, here).Some?)
      && Populate(placed, if n.Dir? then Collect(n.children, here).value else []) == Some(middle)
    ensures CollectVisited(ns[1..], dir).Some?
    ensures Populate(image, CollectVisited(ns, dir).value) == Populate(middle, CollectVisited(ns[1..], dir).value)
  {
    FirstChild(ns, dir);
    hide CollectVisited, Collect, Place, Upper;
    var n, here := ns[0], dir + [Upper(ns[0].name)];
    var first := [ImageEntry(here, ContentOf(n))];
    var inside := if n.Dir? then Collect(n.children, here).value else [];
    var rest := CollectVisited(ns[1..], dir).value;
    PopulateConcat(image, first + inside, rest);
    PopulateConcat(image, first, inside);
    assert first[1..] == [];
    assert Populate(image, first) == Some(placed);
  }

  /** Replaying the collected list into an empty image succeeds, every directory being there before
      anything inside it, and leaves exactly the tree without its ignored parts, upper-cased. */
  lemma ImageReproducesTree(ns: seq<Node>) returns (image: Image)
    requires AllNamesValid(ns) && NoClashes(ns)
    ensures Collect(ns, []).Some? && Populate(map[], Collect(ns, []).value) == Some(image)
    ensures forall p, c :: Has(image, p, c) <==> InTree(ns, p, c)
    ensures forall p, q | p in image && q in image && PathText(p) == PathText(q) :: p == q
  {
    hide InTree, InVisited, Place, PathText, Places, NoPathTwice, Collect, Populate, NoClashes, AllNamesValid, Has, Visited;
    CollectsIff(ns, []);
    image := PopulateTree(map[], ns, []);
    forall p, c
      ensures Has(image, p, c) <==> InTree(ns, p, c)
    {
      EmptyHasNothing(p, c);
      assert p[..0] == [] && p[0..] == p;
      if p != [] { VisitedInTree(ns, p, c); } else { RootNotInTree(ns, c); }
    }
    var es := Collect(ns, []).value;
    NoClashesMeansOnce(ns);
    PlacesOfReplay(map[], es);
    forall p, q | p in image && q in image && PathText(p) == PathText(q)
      ensures p == q
    {
      var a := EntryOf(es, p);
      var b := EntryOf(es, q);
      TextsNamePlaces(ns, a, b);
    }
  }

  lemma EntryOf(es: seq<ImageEntry>, p: Path) returns (e: ImageEntry)
    requires p in Places(es)
    ensures e in es && e.path == p
  {
    e :| e in es && e.path == p;
  }

  lemma EmptyHasNothing(p: Path, c: Content)
    ensures !Has(map[], p, c)
  {
  }

  lemma RootNotInTree(ns: seq<Node>, c: Content)
    ensures !InTree(ns, [], c)
  {
  }

  // ----- and only then

  predicate NoPathTwice(es: seq<ImageEntry>) { forall i, j | 0 <= i < j < |es| :: es[i].path != es[j].path }

  /** The first child's entry comes first, and the rest's entries come last. */
  lemma HeadEntries(ns: seq<Node>, dir: Path) returns (head: seq<ImageEntry>)
    requires ns != [] && CollectVisited(ns, dir).Some?
    ensures head != [] && head[0].path == dir + [Upper(ns[0].name)] && CollectVisited(ns[1..], dir).Some?
    ensures CollectVisited(ns, dir).value == head + CollectVisited(ns[1..], dir).value
  {
    FirstChild(ns, dir);
    hide *;
    var n, here := ns[0], dir + [Upper(ns[0].name)];
    head := [ImageEntry(here, ContentOf(n))] + (if n.Dir? then Collect(n.children, here).value else []);
  }

  /** Every child visited has an entry of its own. */
  lemma {:induction false} ChildHasEntry(ns: seq<Node>, dir: Path, k: nat) returns (i: nat)
    requires CollectVisited(ns, dir).Some? && k < |ns|
    ensures i < |CollectVisited(ns, dir).value| && CollectVisited(ns, dir).value[i].path == dir + [Upper(ns[k].name)]
    decreases k
  {
    hide CollectVisited, Upper;
    var head := HeadEntries(ns, dir);
    if k == 0 {
      i := 0;
    } else {
      var j := ChildHasEntry(ns[1..], dir, k - 1);
      i := |head| + j;
    }
  }

  lemma {:induction false} OneEntryEachMeansNoClashes(ns: seq<Node>, dir: Path)
    requires Collect(ns, dir).Some? && NoPathTwice(Collect(ns, dir).value)
    ensures NoClashes(ns)
    decreases SizeAll(ns), 1, 0
  {
    OneEntryEachVisited(Visited(ns), dir);
    NoClashesOfVisited(ns);
  }

  lemma {:induction false} OneEntryEachVisited(ns: seq<Node>, dir: Path)
    requires CollectVisited(ns, dir).Some? && NoPathTwice(CollectVisited(ns, dir).value)
    ensures NoClashesVisited(ns)
    decreases SizeAll(ns), 0, |ns|
  {
    if ns != [] {
      hide CollectVisited, Collect, Upper, NoClashes, NoClashesVisited, Visited, Kept;
      FirstChild(ns, dir);
      var n, here := ns[0], dir + [Upper(ns[0].name)];
      var all := CollectVisited(ns, dir).value;
      var inside := if n.Dir? then Collect(n.children, here).value else [];
      var rest := CollectVisited(ns[1..], dir).value;
      assert all == [ImageEntry(here, ContentOf(n))] + inside + rest;
      PartsOnce(all, [ImageEntry(here, ContentOf(n))], inside, rest);
      if n.Dir? { OneEntryEachMeansNoClashes(n.children, here); }
      OneEntryEachVisited(ns[1..], dir);
      if Upper(n.name) in Names(ns[1..]) { ClashMeansTwice(ns, dir); }
      NoClashesTail(ns);
    }
  }

  lemma ClashMeansTwice(ns: seq<Node>, dir: Path)
    requires ns != [] && CollectVisited(ns, dir).Some? && Upper(ns[0].name) in Names(ns[1..])
    ensures !NoPathTwice(CollectVisited(ns, dir).value)
  {
    hide CollectVisited, Collect, Upper;
    FirstChild(ns, dir);
    var k :| 0 <= k < |ns[1..]| && Names(ns[1..])[k] == Upper(ns[0].name);
    var i := ChildHasEntry(ns[1..], dir, k);
    var all, rest := CollectVisited(ns, dir).value, CollectVisited(ns[1..], dir).value;
    assert all[|all| - |rest| + i] == rest[i] && all[0].path == rest[i].path;
  }

  lemma PartsOnce(all: seq<ImageEntry>, a: seq<ImageEntry>, b: seq<ImageEntry>, c: seq<ImageEntry>)
    requires all == a + b + c && NoPathTwice(all)
    ensures NoPathTwice(b) && NoPathTwice(c)
  {
    assert forall i | 0 <= i < |b| :: b[i] == all[|a| + i];
    assert forall i | 0 <= i < |c| :: c[i] == all[|a| + |b| + i];
  }

  /** Entries that take a place each, none of them taken before, add exactly their places. */
  lemma {:induction false} PlacesOfReplay(image: Image, es: seq<ImageEntry>)
    requires Populate(image, es).Some?
    requires NoPathTwice(es) && image.Keys !! Places(es)
    ensures Populate(image, es).value.Keys == image.Keys + Places(es)
    decreases |es|
  {
    if es != [] {
      FirstPlace(es);
      PlaceKeys(image, es[0]);
      hide Place, NoPathTwice, Places;
      PlacesOfReplay(Place(image, es[0]).value, es[1..]);
    } else {
      NothingTwice();
    }
  }

  lemma PlaceKeys(image: Image, e: ImageEntry)
    requires Place(image, e).Some? && e.path !in image
    ensures Place(image, e).value.Keys == image.Keys + {e.path}
  {
  }

  ghost function Places(es: seq<ImageEntry>): set<Path> { set e | e in es :: e.path }

  lemma FirstPlace(es: seq<ImageEntry>)
    requires es != []
    ensures Places(es) == {es[0].path} + Places(es[1..])
    ensures NoPathTwice(es) <==> es[0].path !in Places(es[1..]) && NoPathTwice(es[1..])
  {
    assert es == [es[0]] + es[1..];
    FirstOnce(es[0], es[1..]);
  }

  lemma FirstOnce(e: ImageEntry, t: seq<ImageEntry>)
    ensures NoPathTwice([e] + t) <==> e.path !in Places(t) && NoPathTwice(t)
  {
    var es := [e] + t;
    assert forall i | 0 <= i < |t| :: t[i] == es[i + 1];
    if NoPathTwice(es) {
      forall i, j | 0 <= i < j < |t|
        ensures t[i].path != t[j].path
      {
        assert es[i + 1].path != es[j + 1].path;
      }
      forall x | x in t
        ensures x.path != e.path
      {
        var k :| 0 <= k < |t| && t[k] == x;
        assert es[0].path != es[k + 1].path;
      }
    }
    if e.path !in Places(t) && NoPathTwice(t) {
      forall i, j | 0 <= i < j < |es|
        ensures es[i].path != es[j].path
      {
        assert es[j] == t[j - 1] && t[j - 1].path in Places(t);
        if i > 0 { assert es[i] == t[i - 1]; }
      }
    }
  }

  /** As many places as entries means no place was taken twice. */
  lemma {:induction false} AsManyPlaces(es: seq<ImageEntry>)
    ensures |Places(es)| <= |es|
    ensures |Places(es)| == |es| <==> NoPathTwice(es)
    decreases |es|
  {
    hide NoPathTwice;
    if es == [] {
      NothingTwice();
    } else {
      FirstPlace(es);
      hide Places;
      AsManyPlaces(es[1..]);
    }
  }

  lemma NothingTwice()
    ensures NoPathTwice([]) && Places([]) == {}
  {
  }

  /** The replay puts every kept file and directory at its own path, as many places as entries, exactly
      when no two kept siblings have the same name after upper-casing. What the tools do on a path that
      is taken does not matter. */
  lemma FaithfulIffNoClashes(ns: seq<Node>)
    requires AllNamesValid(ns)
    ensures Collect(ns, []).Some? &&
      var es := Collect(ns, []).value;
      var replay := Populate(map[], es);
      (replay.Some? && replay.value.Keys == Places(es) && |replay.value.Keys| == |es|) <==> NoClashes(ns)
  {
    CollectsIff(ns, []);
    var es := Collect(ns, []).value;
    AsManyPlaces(es);
    if NoClashes(ns) {
      var image := ImageReproducesTree(ns);
      NoClashesMeansOnce(ns);
      PlacesOfReplay(map[], es);
    } else if NoPathTwice(es) {
      OneEntryEachMeansNoClashes(ns, []);
    }
    hide Collect, NoClashes, Populate, NoPathTwice, Places;
  }

  /** A file beside a directory of the same upper-cased name ends up inside it: two entries, two
      places, but not the two paths asked for. */
  lemma ClashGoesInside(name: string, bytes: seq<Byte>)
    ensures var es := [ImageEntry([name], Directory), ImageEntry([name], Contents(bytes))];
      Populate(map[], es) == Some(map[[name] := Directory, [name, name] := Contents(bytes)])
  {
    var es := [ImageEntry([name], Directory), ImageEntry([name], Contents(bytes))];
    var one: Image := map[[name] := Directory];
    assert [name][..0] == [] && [name] + [name] == [name, name];
    assert Place(map[], es[0]) == Some(one);
    assert Target(one, [name]) == [name, name] && [name, name] != [name];
    assert Place(one, es[1]) == Some(one[[name, name] := Contents(bytes)]);
    assert es[1..] == [es[1]] && es[1..][1..] == [];
    assert Populate(one, es[1..]) == Populate(one[[name, name] := Contents(bytes)], []);
  }

  lemma NoClashesMeansOnce(ns: seq<Node>)
    requires Collect(ns, []).Some? && NoClashes(ns)
    ensures NoPathTwice(Collect(ns, []).value)
  {
    OnceIn(ns, []);
  }

  /** All entries of a directory lie below it. */
  ghost predicate AllBelow(es: seq<ImageEntry>, dir: Path) {
    forall e | e in es :: |e.path| > |dir| && e.path[..|dir|] == dir
  }

  lemma {:induction false} OnceIn(ns: seq<Node>, dir: Path)
    requires Collect(ns, dir).Some? && NoClashes(ns)
    ensures NoPathTwice(Collect(ns, dir).value) && AllBelow(Collect(ns, dir).value, dir)
    decreases SizeAll(ns), 1, 0
  {
    NoClashesOfVisited(ns);
    OnceInVisited(Visited(ns), dir);
  }

  lemma OnceConcat(a: seq<ImageEntry>, b: seq<ImageEntry>)
    requires NoPathTwice(a) && NoPathTwice(b)
    requires forall x, y | x in a && y in b :: x.path != y.path
    ensures NoPathTwice(a + b)
  {
    var es := a + b;
    forall i, j | 0 <= i < j < |es|
      ensures es[i].path != es[j].path
    {
      if i < |a| && |a| <= j { assert es[i] in a && es[j] in b; }
    }
  }

  /** A child's own entry, what is inside it, and the entries of its siblings do not meet. */
  lemma OnceTogether(dir: Path, name: string, c: Content, inside: seq<ImageEntry>, rest: seq<ImageEntry>)
    requires NoPathTwice(inside) && NoPathTwice(rest)
    requires AllBelow(inside, dir + [name]) && AllBelow(rest, dir)
    requires forall e | e in rest :: e.path[|dir|] != name
    ensures var es := [ImageEntry(dir + [name], c)] + inside + rest;
      && NoPathTwice(es) && AllBelow(es, dir)
      && forall e | e in es :: e.path[|dir|] == name || e in rest
  {
    var own := [ImageEntry(dir + [name], c)];
    forall e | e in inside
      ensures |e.path| > |dir| + 1 && e.path[..|dir|] == dir && e.path[|dir|] == name
    {
      LongerPrefix(e.path, dir, name);
    }
    OnceConcat(own, inside);
    OnceConcat(own + inside, rest);
  }

  lemma {:induction false} OnceInVisited(ns: seq<Node>, dir: Path)
    requires CollectVisited(ns, dir).Some? && NoClashesVisited(ns)
    ensures var es := CollectVisited(ns, dir).value;
      NoPathTwice(es) && AllBelow(es, dir) && forall e | e in es :: e.path[|dir|] in Names(ns)
    decreases SizeAll(ns), 0, |ns|
  {
    hide CollectVisited, Collect, Upper, NoClashes, NoClashesVisited, NoPathTwice, AllNamesValid;
    if ns == [] {
      EmptyCollects(dir);
      NothingTwice();
    } else {
      FirstChild(ns, dir);
      NoClashesTail(ns);
      var n, here := ns[0], dir + [Upper(ns[0].name)];
      var inside := if n.Dir? then Collect(n.children, here).value else [];
      NothingTwice();
      if n.Dir? { OnceIn(n.children, here); }
      OnceInVisited(ns[1..], dir);
      OnceTogether(dir, Upper(n.name), ContentOf(n), inside, CollectVisited(ns[1..], dir).value);
    }
  }
}
