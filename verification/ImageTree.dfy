/** msdos/scripts/create_msdos_img.py: the host tree, the names that may enter an image, the flat
    list the tree is turned into, and the image that list is replayed into. */
module ImageTree {
  import opened MachineInts

  datatype Node = File(name: string, bytes: seq<Byte>) | Dir(name: string, children: seq<Node>)

  datatype Option<+T> = None | Some(value: T)

  // ----- names

  function UpperChar(c: char): char { if 'a' <= c <= 'z' then c - 'a' + 'A' else c }
  function LowerChar(c: char): char { if 'A' <= c <= 'Z' then c - 'A' + 'a' else c }

  function Upper(s: string): string { seq(|s|, i requires 0 <= i < |s| => UpperChar(s[i])) }
  function Lower(s: string): string { seq(|s|, i requires 0 <= i < |s| => LowerChar(s[i])) }

  predicate EndsWith(s: string, t: string) { |t| <= |s| && s[|s| - |t|..] == t }

  /** Hidden files, BBC sidecars and editor backups stay out of the image. */
  predicate Ignored(name: string) {
    (name != "" && name[0] == '.') || EndsWith(Lower(name), ".inf") || EndsWith(name, "~")
  }

  predicate FatChar(c: char) {
    'A' <= c <= 'Z' || '0' <= c <= '9' || c in "!#$%&'()@^_`{}~-"
  }

  predicate FatPart(s: string, most: nat) { 1 <= |s| <= most && forall c | c in s :: FatChar(c) }

  /** One to eight characters, optionally a dot and one to three more. */
  predicate Fat83(s: string) {
    FatPart(s, 8) || exists i | 0 <= i < |s| :: s[i] == '.' && FatPart(s[..i], 8) && FatPart(s[i + 1..], 3)
  }

  // ----- paths

  /** A place in the image, from the root; the script joins the names with slashes. */
  type Path = seq<string>

  function PathText(p: Path): string {
    if p == [] then "" else if |p| == 1 then p[0] else PathText(p[..|p| - 1]) + "/" + p[|p| - 1]
  }

  /** image_join, on which the walk builds every path. */
  function ImageJoin(parent: string, child: string): string {
    if parent == "" then child else parent + "/" + child
  }

  predicate Plain(name: string) { name != "" && '/' !in name }
  predicate PlainPath(p: Path) { forall n | n in p :: Plain(n) }

  lemma JoinIsPathText(p: Path, child: string)
    requires PlainPath(p)
    ensures PathText(p + [child]) == ImageJoin(PathText(p), child)
  {
    assert (p + [child])[..|p|] == p;
    if p != [] {
      assert p[|p| - 1] in p;
      assert PathText(p) != "";
    }
  }

  lemma FatNamesArePlain(s: string)
    requires Fat83(s)
    ensures Plain(s)
  {
    if !FatPart(s, 8) {
      var i :| 0 <= i < |s| && s[i] == '.' && FatPart(s[..i], 8) && FatPart(s[i + 1..], 3);
      forall k | 0 <= k < |s|
        ensures s[k] != '/'
      {
        if k < i { assert s[k] in s[..i]; } else if k > i { assert s[k] in s[i + 1..]; }
      }
    }
  }

  /** Slash-joined text determines the path, so two entries share a text only if they share a place. */
  lemma {:induction false} PathTextInjective(p: Path, q: Path)
    requires PlainPath(p) && PlainPath(q) && PathText(p) == PathText(q)
    ensures p == q
    decreases |p|
  {
    if p == [] || q == [] {
      if p != [] { NotEmptyText(p); }
      if q != [] { NotEmptyText(q); }
    } else {
      var a, b := p[|p| - 1], q[|q| - 1];
      assert a in p && b in q;
      LastName(p);
      LastName(q);
      var t := PathText(p);
      assert !(|a| < |b|) by { if |a| < |b| { assert false; } }
      assert !(|b| < |a|) by { if |b| < |a| { assert false; } }
      assert a == t[|t| - |a|..] == b;
      var p', q' := p[..|p| - 1], q[..|q| - 1];
      assert PlainPath(p') && PlainPath(q');
      assert p == p' + [a] && q == q' + [b];
      if |p| > 1 && |q| > 1 {
        assert PathText(p') == t[..|t| - |a| - 1] == PathText(q');
        PathTextInjective(p', q');
      }
    }
  }

  lemma NotEmptyText(p: Path)
    requires PlainPath(p) && p != []
    ensures PathText(p) != ""
  {
    assert p[|p| - 1] in p;
  }

  lemma LastName(p: Path)
    requires PlainPath(p) && p != []
    ensures var a, t := p[|p| - 1], PathText(p);
      && |a| > 0 && '/' !in a && |a| <= |t| && t[|t| - |a|..] == a
      && (|p| == 1 <==> |t| == |a|)
      && (|p| > 1 ==> |t| > |a| && t[|t| - |a| - 1] == '/' && t[..|t| - |a| - 1] == PathText(p[..|p| - 1]))
  {
    assert p[|p| - 1] in p;
  }

  // ----- collect_entries

  datatype Content = Directory | Contents(bytes: seq<Byte>)

  function ContentOf(n: Node): Content { if n.Dir? then Directory else Contents(n.bytes) }

  datatype ImageEntry = ImageEntry(path: Path, content: Content)

  function Kept(ns: seq<Node>): seq<Node> {
    if ns == [] then [] else (if Ignored(ns[0].name) then [] else [ns[0]]) + Kept(ns[1..])
  }

  predicate Less(s: string, t: string) {
    if t == "" then false else if s == "" then true
    else s[0] < t[0] || (s[0] == t[0] && Less(s[1..], t[1..]))
  }

  /** The sort key: directories first, then by upper-cased name. */
  predicate Before(a: Node, b: Node) {
    if a.Dir? != b.Dir? then a.Dir? else Less(Upper(a.name), Upper(b.name))
  }

  /** Insert before the first element that must follow, which keeps equal keys in their order. */
  function Insert(n: Node, ns: seq<Node>): seq<Node> {
    if ns == [] || !Before(ns[0], n) then [n] + ns else [ns[0]] + Insert(n, ns[1..])
  }

  function Sorted(ns: seq<Node>): seq<Node> {
    if ns == [] then [] else Insert(ns[0], Sorted(ns[1..]))
  }

  function Size(n: Node): nat {
    if n.File? then 1 else 1 + SizeAll(n.children)
  }

  function SizeAll(ns: seq<Node>): nat {
    if ns == [] then 0 else Size(ns[0]) + SizeAll(ns[1..])
  }

  lemma {:induction false} InsertSame(n: Node, ns: seq<Node>)
    ensures multiset(Insert(n, ns)) == multiset(ns) + multiset{n}
    ensures SizeAll(Insert(n, ns)) == Size(n) + SizeAll(ns)
  {
    hide Before;
    if ns == [] {
      assert Insert(n, ns) == [n];
    } else {
      assert ns == [ns[0]] + ns[1..];
      InsertSame(n, ns[1..]);
    }
  }

  /** Sorting moves children around and does nothing else. */
  lemma {:induction false} SortedSame(ns: seq<Node>)
    ensures multiset(Sorted(ns)) == multiset(ns)
    ensures SizeAll(Sorted(ns)) == SizeAll(ns)
  {
    if ns != [] {
      assert ns == [ns[0]] + ns[1..];
      SortedSame(ns[1..]);
      InsertSame(ns[0], Sorted(ns[1..]));
    }
  }

  lemma {:induction false} KeptSmaller(ns: seq<Node>)
    ensures SizeAll(Kept(ns)) <= SizeAll(ns)
    ensures forall n :: n in Kept(ns) <==> n in ns && !Ignored(n.name)
  {
    hide Ignored;
    if ns != [] {
      assert ns == [ns[0]] + ns[1..];
      KeptSmaller(ns[1..]);
      if !Ignored(ns[0].name) {
        assert Kept(ns)[1..] == Kept(ns[1..]);
      } else {
        assert Kept(ns) == Kept(ns[1..]);
      }
    }
  }

  /** The children of one directory in the order the walk visits them. */
  function Visited(ns: seq<Node>): (r: seq<Node>)
    ensures SizeAll(r) <= SizeAll(ns)
    ensures forall n :: n in r <==> n in ns && !Ignored(n.name)
    ensures multiset(r) == multiset(Kept(ns))
  {
    KeptSmaller(ns);
    SortedSame(Kept(ns));
    assert forall n :: n in Sorted(Kept(ns)) <==> n in multiset(Kept(ns));
    Sorted(Kept(ns))
  }

  /** The entries for a directory's contents, or None when some name is not 8.3. */
  function Collect(ns: seq<Node>, dir: Path): Option<seq<ImageEntry>>
    decreases SizeAll(ns), 1, 0
  {
    CollectVisited(Visited(ns), dir)
  }

  function CollectVisited(ns: seq<Node>, dir: Path): Option<seq<ImageEntry>>
    decreases SizeAll(ns), 0, |ns|
  {
    if ns == [] then Some([])
    else
      var n, here := ns[0], dir + [Upper(ns[0].name)];
      if !Fat83(Upper(n.name)) then None
      else
        assert SizeAll(ns) == Size(n) + SizeAll(ns[1..]) && (n.Dir? ==> Size(n) == 1 + SizeAll(n.children));
        var inside := if n.Dir? then Collect(n.children, here) else Some([]);
        var rest := CollectVisited(ns[1..], dir);
        if inside.None? || rest.None? then None
        else Some([ImageEntry(here, ContentOf(n))] + inside.value + rest.value)
  }

  // ----- populate_image

  /** The files and directories of an image; the root is always there. */
  type Image = map<Path, Content>

  predicate IsDirectory(image: Image, p: Path) { p == [] || (p in image && image[p] == Directory) }

  /** Where a copy to this path ends up: on a directory's path, inside that directory under the same name. */
  function Target(image: Image, p: Path): Path
    requires p != []
  {
    if p in image && image[p].Directory? then p + [p[|p| - 1]] else p
  }

  /** mmd, which fails on a path that is taken, and mcopy -o, which overwrites files only. */
  function Place(image: Image, e: ImageEntry): Option<Image> {
    if e.path == [] || !IsDirectory(image, e.path[..|e.path| - 1]) then None
    else if e.content.Directory? then (if e.path in image then None else Some(image[e.path := e.content]))
    else
      var t := Target(image, e.path);
      if t in image && image[t].Directory? then None else Some(image[t := e.content])
  }

  function Populate(image: Image, entries: seq<ImageEntry>): Option<Image>
    decreases |entries|
  {
    if entries == [] then Some(image)
    else match Place(image, entries[0])
      case None => None
      case Some(next) => Populate(next, entries[1..])
  }

  lemma {:induction false} PopulateConcat(image: Image, a: seq<ImageEntry>, b: seq<ImageEntry>)
    ensures Populate(image, a + b) == match Populate(image, a) case None => None case Some(m) => Populate(m, b)
    decreases |a|
  {
    hide Place;
    if a == [] {
      assert a + b == b;
    } else {
      assert (a + b)[1..] == a[1..] + b;
      if Place(image, a[0]).Some? {
        PopulateConcat(Place(image, a[0]).value, a[1..], b);
      }
    }
  }

  // ----- the script's own form

  /** The nested function walk, which appends to the list of the enclosing function. */
  class Collector {
    var entries: seq<ImageEntry>

    constructor ()
      ensures entries == []
    {
      entries := [];
    }

    /** False stands for the ValueError that ends the run; what was appended until then is dropped. */
    method Walk(ns: seq<Node>, dir: Path) returns (ok: bool)
      modifies this
      ensures ok == Collect(ns, dir).Some?
      ensures ok ==> entries == old(entries) + Collect(ns, dir).value
      decreases SizeAll(ns), 1
    {
      var children := Visited(ns);
      ok := WalkChildren(children, dir);
    }

    method WalkChildren(children: seq<Node>, dir: Path) returns (ok: bool)
      modifies this
      ensures ok == CollectVisited(children, dir).Some?
      ensures ok ==> entries == old(entries) + CollectVisited(children, dir).value
      decreases SizeAll(children), 0
    {
      hide Fat83, Upper, ContentOf, Collect, CollectVisited, Size, SizeAll;
      var i := 0;
      ghost var done := [];
      PrependLaws([], [], CollectVisited(children, dir));
      assert children[0..] == children;
      while i < |children|
        invariant 0 <= i <= |children| && SizeAll(children[i..]) <= SizeAll(children)
        invariant CollectVisited(children, dir) == Prepend(done, CollectVisited(children[i..], dir))
        invariant entries == old(entries) + done
      {
        var child := children[i];
        var here := dir + [Upper(child.name)];
        ghost var before, own := done, [ImageEntry(here, ContentOf(child))];
        assert children[i..][1..] == children[i + 1..];
        CollectStep(children[i..], dir);
        if !Fat83(Upper(child.name)) {
          return false;
        }
        entries := entries + [ImageEntry(here, ContentOf(child))];
        if child.Dir? {
          var inside := Walk(child.children, here);
          if !inside {
            return false;
          }
          own := own + Collect(child.children, here).value;
        }
        done := before + own;
        PrependLaws(before, own, CollectVisited(children[i + 1..], dir));
        i := i + 1;
      }
      EmptyCollects(dir);
      ok := true;
    }
  }

  function Prepend(a: seq<ImageEntry>, b: Option<seq<ImageEntry>>): Option<seq<ImageEntry>> {
    if b.None? then None else Some(a + b.value)
  }

  lemma PrependLaws(a: seq<ImageEntry>, b: seq<ImageEntry>, o: Option<seq<ImageEntry>>)
    ensures Prepend([], o) == o
    ensures Prepend(a, Prepend(b, o)) == Prepend(a + b, o)
  {
    if o.Some? {
      assert [] + o.value == o.value;
      assert a + (b + o.value) == a + b + o.value;
    }
  }

  /** The list of a directory with a first child, in terms of the child's and the rest's. */
  lemma CollectStep(ns: seq<Node>, dir: Path)
    requires ns != []
    ensures SizeAll(ns[1..]) <= SizeAll(ns) && (ns[0].Dir? ==> SizeAll(ns[0].children) < SizeAll(ns))
    ensures var n, here := ns[0], dir + [Upper(ns[0].name)];
      var rest := CollectVisited(ns[1..], dir);
      var own := [ImageEntry(here, ContentOf(n))];
      CollectVisited(ns, dir) ==
        if !Fat83(Upper(n.name)) then None
        else if n.File? then Prepend(own, rest)
        else if Collect(n.children, here).None? then None
        else Prepend(own + Collect(n.children, here).value, rest)
  {
    hide Fat83, Upper, ContentOf, Visited;
    var n, here := ns[0], dir + [Upper(ns[0].name)];
    var own, rest := [ImageEntry(here, ContentOf(n))], CollectVisited(ns[1..], dir);
    assert own + [] == own;
  }

  lemma EmptyCollects(dir: Path)
    ensures CollectVisited([], dir) == Some([])
  {
  }

  /** populate_image; false stands for the first tool run that fails. */
  method PopulateImage(image: Image, entries: seq<ImageEntry>) returns (ok: bool, result: Image)
    ensures ok == Populate(image, entries).Some? && (ok ==> result == Populate(image, entries).value)
  {
    result := image;
    for i := 0 to |entries|
      invariant Populate(image, entries) == Populate(result, entries[i..])
    {
      assert entries[i..][1..] == entries[i + 1..];
      var next := Place(result, entries[i]);
      if next.None? {
        return false, result;
      }
      result := next.value;
    }
    ok := true;
  }
}
