/** The order and the names of a collected list, stated without the script's own comparison. */
module ImageOrder {
  import opened ImageTree
  import opened ImageReplay

  // ----- the order of names

  /** s is a proper prefix of t, or has the smaller character where they first differ. */
  ghost predicate Precedes(s: string, t: string) {
    s < t || exists k | 0 <= k < |s| && k < |t| :: s[..k] == t[..k] && s[k] < t[k]
  }

  lemma {:induction false} LessMeans(s: string, t: string)
    ensures Less(s, t) <==> Precedes(s, t)
  {
    if s != [] && t != [] && s[0] == t[0] {
      LessMeans(s[1..], t[1..]);
      PrecedesTail(s, t);
    } else if s != [] && t != [] {
      assert s[0] < t[0] ==> s[..0] == t[..0] && s[0] < t[0];
      forall k | 0 < k < |s| && k < |t|
        ensures s[..k] != t[..k]
      {
        assert s[..k][0] == s[0] && t[..k][0] == t[0];
      }
    }
  }

  lemma PrecedesTail(s: string, t: string)
    requires s != [] && t != [] && s[0] == t[0]
    ensures Precedes(s, t) <==> Precedes(s[1..], t[1..])
  {
    assert s == [s[0]] + s[1..] && t == [t[0]] + t[1..];
    if Precedes(s, t) && !(s < t) {
      var k :| 0 <= k < |s| && k < |t| && s[..k] == t[..k] && s[k] < t[k];
      assert s[1..][..k - 1] == s[..k][1..] && t[1..][..k - 1] == t[..k][1..];
      assert s[1..][k - 1] < t[1..][k - 1];
    }
    if Precedes(s[1..], t[1..]) && !(s[1..] < t[1..]) {
      var k :| 0 <= k < |s[1..]| && k < |t[1..]| && s[1..][..k] == t[1..][..k] && s[1..][k] < t[1..][k];
      assert s[..k + 1] == [s[0]] + s[1..][..k] && t[..k + 1] == [t[0]] + t[1..][..k];
      assert s[k + 1] < t[k + 1];
    }
  }

  // ----- the order of a directory's children

  /** Directories come before files, and children of one kind in the order of their upper-cased names. */
  lemma VisitedOrder(ns: seq<Node>, i: nat, j: nat)
    requires i < j < |Visited(ns)|
    ensures var a, b := Visited(ns)[i], Visited(ns)[j];
      && (b.Dir? ==> a.Dir?)
      && (a.Dir? == b.Dir? ==> Upper(a.name) == Upper(b.name) || Precedes(Upper(a.name), Upper(b.name)))
  {
    hide Upper, Precedes;
    VisitedInOrder(Kept(ns));
    var a, b := Visited(ns)[i], Visited(ns)[j];
    assert !Before(b, a);
    LessTotal(Upper(a.name), Upper(b.name));
    LessMeans(Upper(a.name), Upper(b.name));
  }

  /** The children of one kind and one upper-cased name, in the order given. */
  function Alike(ns: seq<Node>, dir: bool, name: string): seq<Node> {
    if ns == [] then []
    else (if ns[0].Dir? == dir && Upper(ns[0].name) == name then [ns[0]] else []) + Alike(ns[1..], dir, name)
  }

  lemma {:induction false} InsertStable(n: Node, ns: seq<Node>, dir: bool, name: string)
    ensures Alike(Insert(n, ns), dir, name) == Alike([n], dir, name) + Alike(ns, dir, name)
  {
    hide Upper, Before;
    AlikeCons(n, [], dir, name);
    if ns == [] || !Before(ns[0], n) {
      AlikeCons(n, ns, dir, name);
    } else {
      AlikeCons(ns[0], Insert(n, ns[1..]), dir, name);
      InsertStable(n, ns[1..], dir, name);
      KeysApart(ns[0], n);
    }
  }

  lemma AlikeCons(n: Node, ns: seq<Node>, dir: bool, name: string)
    ensures Alike([n] + ns, dir, name) == (if n.Dir? == dir && Upper(n.name) == name then [n] else []) + Alike(ns, dir, name)
  {
    hide Upper;
    assert ([n] + ns)[1..] == ns;
  }

  lemma KeysApart(a: Node, b: Node)
    requires Before(a, b)
    ensures a.Dir? != b.Dir? || Upper(a.name) != Upper(b.name)
  {
    LessIrreflexive(Upper(a.name));
  }

  /** Children with equal keys stay in the order the host listed them. */
  lemma {:induction false} SortStable(ns: seq<Node>, dir: bool, name: string)
    ensures Alike(Sorted(ns), dir, name) == Alike(ns, dir, name)
  {
    hide Upper, Insert;
    if ns != [] {
      SortStable(ns[1..], dir, name);
      InsertStable(ns[0], Sorted(ns[1..]), dir, name);
      AlikeCons(ns[0], [], dir, name);
    }
  }

  // ----- the list

  /** The list of a directory is one block for each child, in that order: the child's own entry and
      right behind it, for a directory, the list of what is inside. */
  ghost predicate Blocks(ns: seq<Node>, dir: Path, es: seq<ImageEntry>, cuts: seq<nat>) {
    && |cuts| == |ns| + 1 && cuts[0] == 0 && cuts[|ns|] == |es|
    && forall k | 0 <= k < |ns| :: IsBlock(ns[k], dir, es, cuts[k], cuts[k + 1])
  }

  ghost predicate IsBlock(n: Node, dir: Path, es: seq<ImageEntry>, lo: nat, hi: nat) {
    var here := dir + [Upper(n.name)];
    && lo < hi <= |es|
    && es[lo] == ImageEntry(here, ContentOf(n))
    && (n.File? ==> hi == lo + 1)
    && (n.Dir? ==> Collect(n.children, here) == Some(es[lo + 1..hi]))
  }

  lemma {:induction false} ListIsBlocks(ns: seq<Node>, dir: Path) returns (cuts: seq<nat>)
    requires CollectVisited(ns, dir).Some?
    ensures Blocks(ns, dir, CollectVisited(ns, dir).value, cuts)
    decreases |ns|
  {
    if ns == [] {
      cuts := [0];
      EmptyCollects(dir);
    } else {
      hide CollectVisited, Blocks, IsBlock;
      var head := FirstBlock(ns, dir);
      var later := ListIsBlocks(ns[1..], dir);
      cuts := BlocksCons(ns, dir, CollectVisited(ns, dir).value, CollectVisited(ns[1..], dir).value, head, later);
    }
  }

  lemma FirstBlock(ns: seq<Node>, dir: Path) returns (head: nat)
    requires ns != [] && CollectVisited(ns, dir).Some?
    ensures CollectVisited(ns[1..], dir).Some?
    ensures var es := CollectVisited(ns, dir).value;
      head <= |es| && es[head..] == CollectVisited(ns[1..], dir).value && IsBlock(ns[0], dir, es, 0, head)
  {
    FirstChild(ns, dir);
    hide Collect, CollectVisited, Upper, ContentOf, NoClashes, NoClashesVisited, Size, SizeAll;
    var n, here := ns[0], dir + [Upper(ns[0].name)];
    var inside := if n.Dir? then Collect(n.children, here).value else [];
    head := 1 + |inside|;
    var es := CollectVisited(ns, dir).value;
    assert es == [ImageEntry(here, ContentOf(n))] + inside + CollectVisited(ns[1..], dir).value;
    assert es[1..head] == inside;
  }

  lemma BlocksCons(ns: seq<Node>, dir: Path, es: seq<ImageEntry>, rest: seq<ImageEntry>, head: nat, later: seq<nat>)
    returns (cuts: seq<nat>)
    requires ns != [] && head <= |es| && es[head..] == rest && IsBlock(ns[0], dir, es, 0, head)
    requires Blocks(ns[1..], dir, rest, later)
    ensures Blocks(ns, dir, es, cuts)
  {
    hide IsBlock;
    cuts := [0] + seq(|ns|, k requires 0 <= k < |ns| => head + later[k]);
    forall k | 0 <= k < |ns|
      ensures IsBlock(ns[k], dir, es, cuts[k], cuts[k + 1])
    {
      if k > 0 {
        assert IsBlock(ns[1..][k - 1], dir, rest, later[k - 1], later[k]);
        BlockShifts(ns[k], dir, es, rest, head, later[k - 1], later[k]);
      }
    }
  }

  lemma BlockShifts(n: Node, dir: Path, es: seq<ImageEntry>, rest: seq<ImageEntry>, head: nat, lo: nat, hi: nat)
    requires head <= |es| && es[head..] == rest && IsBlock(n, dir, rest, lo, hi)
    ensures IsBlock(n, dir, es, head + lo, head + hi)
  {
    hide Collect, Upper, ContentOf;
    assert rest[lo] == es[head + lo];
    assert rest[lo + 1..hi] == es[head + lo + 1..head + hi];
  }

  /** What the walk collects from a directory is one block for each kept child in the visited order. */
  lemma CollectedInBlocks(ns: seq<Node>, dir: Path) returns (cuts: seq<nat>)
    requires Collect(ns, dir).Some?
    ensures Blocks(Visited(ns), dir, Collect(ns, dir).value, cuts)
  {
    hide Blocks;
    cuts := ListIsBlocks(Visited(ns), dir);
  }

  // ----- names

  lemma UpperOfLower(s: string)
    ensures Upper(Lower(s)) == Upper(s) && Upper(Upper(s)) == Upper(s) && |Upper(s)| == |s|
  {
  }

  /** Ignored are the names with a leading dot, with a trailing tilde, and those that end in ".INF" in
      either case. */
  lemma IgnoredMeans(name: string)
    ensures Ignored(name) <==>
      || (|name| > 0 && name[0] == '.')
      || (|name| > 0 && name[|name| - 1] == '~')
      || (|name| >= 4 && Upper(name[|name| - 4..]) == ".INF")
  {
    if |name| >= 4 {
      var tail := name[|name| - 4..];
      assert Lower(name)[|name| - 4..] == Lower(tail);
      InfEitherCase(tail);
    }
    if |name| > 0 {
      assert name[|name| - 1..] == [name[|name| - 1]];
    }
  }

  lemma InfEitherCase(tail: string)
    requires |tail| == 4
    ensures Lower(tail) == ".inf" <==> Upper(tail) == ".INF"
  {
    assert Lower(tail) == [LowerChar(tail[0]), LowerChar(tail[1]), LowerChar(tail[2]), LowerChar(tail[3])];
    assert Upper(tail) == [UpperChar(tail[0]), UpperChar(tail[1]), UpperChar(tail[2]), UpperChar(tail[3])];
  }

  lemma KnownNames()
    ensures Ignored("X.INF") && Ignored("x~") && Ignored(".git") && !Ignored("A.TXT")
    ensures Upper("Read_me1.txt") == "READ_ME1.TXT"
  {
    IgnoredMeans("X.INF");
    IgnoredMeans("x~");
    IgnoredMeans("A.TXT");
    assert "X.INF"[1..] == ".INF" && Upper(".INF") == ".INF";
    assert "A.TXT"[1..] == ".TXT" && Upper(".TXT")[1] == 'T';
  }

  /** No name character is a dot, a slash, a space, a lower-case letter or a wildcard. */
  lemma FatCharExcludes(c: char)
    requires FatChar(c)
    ensures c !in "./\\ :*?\"<>|+,;=[]" && !('a' <= c <= 'z') && UpperChar(c) == c
  {
  }

  /** An 8.3 name: name characters with at most one dot, up to eight before it and one to three after. */
  lemma Fat83Means(s: string)
    ensures Fat83(s) <==>
      || (1 <= |s| <= 8 && forall c | c in s :: FatChar(c))
      || (exists i | 1 <= i <= 8 && i + 1 < |s| <= i + 4 ::
            s[i] == '.' && forall k | 0 <= k < |s| && k != i :: FatChar(s[k]))
  {
    hide FatChar;
    if exists i | 0 <= i < |s| :: s[i] == '.' && FatPart(s[..i], 8) && FatPart(s[i + 1..], 3) {
      var i :| 0 <= i < |s| && s[i] == '.' && FatPart(s[..i], 8) && FatPart(s[i + 1..], 3);
      forall k | 0 <= k < |s| && k != i
        ensures FatChar(s[k])
      {
        if k < i { assert s[k] in s[..i]; } else { assert s[k] in s[i + 1..]; }
      }
    }
    if exists i | 1 <= i <= 8 && i + 1 < |s| <= i + 4 :: s[i] == '.' && forall k | 0 <= k < |s| && k != i :: FatChar(s[k]) {
      var i :| 1 <= i <= 8 && i + 1 < |s| <= i + 4 && s[i] == '.' && forall k | 0 <= k < |s| && k != i :: FatChar(s[k]);
      assert FatPart(s[..i], 8) && FatPart(s[i + 1..], 3);
    }
  }

  /** So it has at most twelve characters and one dot, not at either end, and is its own upper case. */
  lemma Fat83Shape(s: string)
    requires Fat83(s)
    ensures 1 <= |s| <= 12 && s[0] != '.' && s[|s| - 1] != '.' && Upper(s) == s
    ensures forall i, j | 0 <= i < j < |s| :: s[i] != '.' || s[j] != '.'
  {
    Fat83Means(s);
    hide Fat83, FatChar;
    forall k | 0 <= k < |s|
      ensures UpperChar(s[k]) == s[k] && (FatChar(s[k]) ==> s[k] != '.')
    {
      if FatChar(s[k]) { FatCharExcludes(s[k]); }
    }
  }
}
