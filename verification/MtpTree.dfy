/** The storage behind MTP: finite directory trees, subtree moves and copies, and paths as text. */
module MtpTree {

  /** A path by its components; [] is the root, which is not itself an entry. */
  type Path = seq<string>

  datatype Node = Dir | File(data: seq<int>)

  type Tree = map<Path, Node>

  function Front(p: Path): Path
    requires p != []
  {
    p[..|p| - 1]
  }

  predicate DirAt(t: Tree, d: Path) {
    d == [] || (d in t && t[d].Dir?)
  }

  /** Every entry lies in a directory of the tree. */
  predicate WellFormed(t: Tree) {
    forall p :: p in t ==> p != [] && DirAt(t, Front(p))
  }

  function Below(t: Tree, d: Path): set<Path> {
    set p | p in t && d < p
  }

  function Children(t: Tree, d: Path): set<Path> {
    set p | p in t && |p| == |d| + 1 && d < p
  }

  lemma {:induction false} PrefixesExist(t: Tree, p: Path, k: nat)
    requires WellFormed(t) && p in t && 0 < k <= |p|
    ensures p[..k] in t && (k < |p| ==> t[p[..k]].Dir?)
    decreases |p| - k
  {
    if k == |p| {
      assert p[..k] == p;
    } else {
      PrefixesExist(t, p, k + 1);
      assert Front(p[..k + 1]) == p[..k];
    }
  }

  /** An entry below a directory is one of its children or lies below one. */
  lemma BelowIsBelowAChild(t: Tree, d: Path, p: Path)
    requires WellFormed(t) && p in Below(t, d)
    ensures var c := p[..|d| + 1];
            c in Children(t, d) && (p == c || (p in Below(t, c) && t[c].Dir?))
  {
    PrefixesExist(t, p, |d| + 1);
    assert p[..|d| + 1][..|d|] == p[..|d|];
    if |p| == |d| + 1 {
      assert p[..|d| + 1] == p;
    }
  }

  lemma ChildIsItsPrefix(t: Tree, d: Path, c: Path, p: Path)
    requires c in Children(t, d) && c <= p
    ensures p[..|d| + 1] == c && d < p
  {
    assert p[..|d|] == c[..|d|];
  }

  /** Only directories have anything below them. */
  lemma BelowIsInDirectory(t: Tree, p: Path)
    requires WellFormed(t) && p in t
    ensures Below(t, p) != {} ==> t[p].Dir?
  {
    if q :| q in Below(t, p) {
      assert q[..|p|] == p;
      PrefixesExist(t, q, |p|);
    }
  }

  // ---- moving and copying a subtree ----

  /** `p` with the prefix `old` replaced by `new`. */
  function Subst(p: Path, old_: Path, new_: Path): (q: Path)
    requires old_ <= p
    ensures |q| == |p| - |old_| + |new_|
  {
    new_ + p[|old_|..]
  }

  lemma SubstInjective(p: Path, q: Path, old_: Path, new_: Path)
    requires old_ <= p && old_ <= q && Subst(p, old_, new_) == Subst(q, old_, new_)
    ensures p == q
  {
    assert Subst(p, old_, new_)[|new_|..] == p[|old_|..];
    assert Subst(q, old_, new_)[|new_|..] == q[|old_|..];
    assert p == old_ + p[|old_|..];
    assert q == old_ + q[|old_|..];
  }

  lemma SubstBack(p: Path, old_: Path, new_: Path)
    requires old_ <= p
    ensures new_ <= Subst(p, old_, new_) && Subst(Subst(p, old_, new_), new_, old_) == p
  {
    assert Subst(p, old_, new_)[|new_|..] == p[|old_|..];
    assert p == old_ + p[|old_|..];
  }

  /** The entry at `old` and all below it, as they look from `new`. */
  function Image(t: Tree, old_: Path, new_: Path): (r: Tree)
    ensures forall q :: q in r <==> new_ <= q && Subst(q, new_, old_) in t
    ensures forall q :: q in r ==> r[q] == t[Subst(q, new_, old_)]
  {
    ImageKeys(t, old_, new_);
    map q | q in set p | p in t && old_ <= p :: Subst(p, old_, new_) :: t[Subst(q, new_, old_)]
  }

  lemma ImageKeys(t: Tree, old_: Path, new_: Path)
    ensures forall q ::
              (q in set p | p in t && old_ <= p :: Subst(p, old_, new_)) <==> new_ <= q && Subst(q, new_, old_) in t
  {
    var keys := set p | p in t && old_ <= p :: Subst(p, old_, new_);
    forall q | q in keys
      ensures new_ <= q && Subst(q, new_, old_) in t
    {
      var p :| p in t && old_ <= p && q == Subst(p, old_, new_);
      SubstBack(p, old_, new_);
    }
    forall q | new_ <= q && Subst(q, new_, old_) in t
      ensures q in keys
    {
      SubstBack(q, new_, old_);
    }
  }

  function Without(t: Tree, d: Path): Tree {
    map p | p in t && !(d <= p) :: t[p]
  }

  /** `rename` on the backend: the subtree cut out and put back at `new`. */
  function Moved(t: Tree, old_: Path, new_: Path): Tree {
    Without(t, old_) + Image(t, old_, new_)
  }

  /** When a rename is accepted: the destination is free, in a directory, and not inside the source. */
  predicate CanMove(t: Tree, old_: Path, new_: Path) {
    old_ in t && new_ != [] && new_ !in t && !(old_ <= new_) && DirAt(t, Front(new_))
  }

  /** Nothing lies under a path that is not in the tree. */
  lemma NothingUnder(t: Tree, d: Path, p: Path)
    requires WellFormed(t) && p in t && d != [] && d <= p
    ensures d in t
  {
    assert p[..|d|] == d;
    PrefixesExist(t, p, |d|);
  }

  lemma FrontPrefix(p: Path, d: Path)
    requires d < p
    ensures p != [] && d <= Front(p)
  {
    assert Front(p)[..|d|] == p[..|d|];
  }

  lemma SubstFront(q: Path, old_: Path, new_: Path)
    requires new_ < q
    ensures new_ <= Front(q) && Subst(q, new_, old_) != [] && Front(Subst(q, new_, old_)) == Subst(Front(q), new_, old_)
  {
    FrontPrefix(q, new_);
    assert Front(q)[|new_|..] == q[|new_|..|q| - 1];
  }

  lemma ImageInDirs(t: Tree, old_: Path, new_: Path, q: Path)
    requires WellFormed(t) && q in Image(t, old_, new_) && old_ != []
    ensures q == new_ || (new_ < q && DirAt(Image(t, old_, new_), Front(q)) && Front(q) in Image(t, old_, new_))
  {
    if q != new_ {
      SubstFront(q, old_, new_);
      var p := Subst(q, new_, old_);
      assert p in t && DirAt(t, Front(p));
      assert old_ <= Front(p);
    }
  }

  lemma MovedIsWellFormed(t: Tree, old_: Path, new_: Path)
    requires WellFormed(t) && old_ != [] && CanMove(t, old_, new_)
    ensures WellFormed(Moved(t, old_, new_))
  {
    hide Subst;
    var m := Moved(t, old_, new_);
    forall q | q in m
      ensures q != [] && DirAt(m, Front(q))
    {
      if q in Image(t, old_, new_) {
        ImageInDirs(t, old_, new_, q);
        if q == new_ && old_ <= Front(q) {
          FrontUnder(new_, old_);
        }
      } else {
        if old_ <= Front(q) {
          FrontUnder(q, old_);
        }
        assert DirAt(t, Front(q));
        if Front(q) in Image(t, old_, new_) {
          NothingUnder(t, new_, Front(q));
        }
      }
    }
  }

  lemma FrontUnder(q: Path, d: Path)
    requires q != [] && d <= Front(q)
    ensures d <= q
  {
    assert q[..|d|] == Front(q)[..|d|];
  }

  // ---- overlaying a copy ----

  /** Entries already where the copy goes are of the same kind: no directory meets a file. */
  predicate SameKinds(dest: Tree, image: Tree) {
    forall q :: q in dest && q in image ==> (dest[q].Dir? <==> image[q].Dir?)
  }

  lemma OverlayIsWellFormed(src: Tree, dest: Tree, old_: Path, new_: Path)
    requires WellFormed(src) && WellFormed(dest) && old_ != [] && new_ != [] && DirAt(dest, Front(new_))
    requires SameKinds(dest, Image(src, old_, new_))
    ensures WellFormed(dest + Image(src, old_, new_))
  {
    hide Subst;
    var image := Image(src, old_, new_);
    var r := dest + image;
    forall q | q in r
      ensures q != [] && DirAt(r, Front(q))
    {
      if q in image {
        ImageInDirs(src, old_, new_, q);
      }
    }
  }

  /** The subtree at `d`, seen from `d`. */
  function Subtree(t: Tree, d: Path): Tree {
    Image(t, d, [])
  }

  /** One place of the copy against the same place of the source. */
  lemma CopyPlace(src: Tree, dest: Tree, old_: Path, new_: Path, r: Path)
    ensures var image := Image(src, old_, new_);
            var a, b := Subtree(dest + image, new_), Subtree(src, old_);
            && (r in b <==> new_ + r in image) && (r in a <==> new_ + r in dest || new_ + r in image)
            && (r in a && r in b ==> a[r] == b[r])
  {
    hide Image, Subst, Subtree;
    ImageAt(src, old_, new_, r);
    SubtreeAt(src, old_, r);
    SubtreeAt(dest + Image(src, old_, new_), new_, r);
  }

  /**
   * After a copy the destination looks exactly like the source did, just when nothing else was
   * already under the destination; in particular always when the destination is new.
   */
  lemma CopyIsIsomorphic(src: Tree, dest: Tree, old_: Path, new_: Path)
    ensures Subtree(dest + Image(src, old_, new_), new_) == Subtree(src, old_)
       <==> forall q :: q in dest && new_ <= q ==> q in Image(src, old_, new_)
  {
    hide Image, Subst, Subtree;
    var image := Image(src, old_, new_);
    var a, b := Subtree(dest + image, new_), Subtree(src, old_);
    if q :| q in dest && new_ <= q && q !in image {
      CopyPlace(src, dest, old_, new_, q[|new_|..]);
      assert new_ + q[|new_|..] == q;
      assert q[|new_|..] in a && q[|new_|..] !in b;
    } else {
      forall r: Path
        ensures (r in a <==> r in b) && (r in a ==> a[r] == b[r])
      {
        CopyPlace(src, dest, old_, new_, r);
        assert new_ <= new_ + r;
      }
      assert a == b;
    }
  }

  lemma ImageAt(t: Tree, old_: Path, new_: Path, r: Path)
    ensures new_ + r in Image(t, old_, new_) <==> old_ + r in t
    ensures old_ + r in t ==> Image(t, old_, new_)[new_ + r] == t[old_ + r]
  {
    hide Image;
    assert (new_ + r)[|new_|..] == r;
    assert Subst(new_ + r, new_, old_) == old_ + r;
  }

  lemma SubtreeAt(t: Tree, d: Path, r: Path)
    ensures r in Subtree(t, d) <==> d + r in t
    ensures d + r in t ==> Subtree(t, d)[r] == t[d + r]
  {
    hide Image;
    ImageAt(t, d, [], r);
    assert [] + r == r;
  }

  /** Copying back over a store: where the copy lands inside the subtree `root` it changes nothing there. */
  predicate Harmless(t: Tree, root: Path, image: Tree) {
    forall q :: q in image && q in t && root <= q ==> image[q] == t[q]
  }

  /** A destination that is not there yet takes any copy. */
  lemma NewDestinationIsFree(t: Tree, dest: Tree, old_: Path, new_: Path)
    requires WellFormed(dest) && new_ != [] && new_ !in dest
    ensures SameKinds(dest, Image(t, old_, new_))
    ensures Harmless(dest, old_, Image(t, old_, new_))
    ensures forall q :: q in dest && new_ <= q ==> q in Image(t, old_, new_)
  {
    hide Image;
    forall q | q in dest
      ensures !(new_ <= q)
    {
      if new_ <= q {
        NothingUnder(dest, new_, q);
      }
    }
    ImageIsUnder(t, old_, new_);
  }

  lemma ImageIsUnder(t: Tree, old_: Path, new_: Path)
    ensures forall q :: q in Image(t, old_, new_) ==> new_ <= q
  {
  }

  /** The child of `d` that a path below `d` lies at or below. */
  function ChildOf(p: Path, d: Path): Path {
    if |p| > |d| then p[..|d| + 1] else p
  }

  /** The part of a copy that comes from the children `done`. */
  function ImagePart(t: Tree, old_: Path, new_: Path, done: set<Path>): Tree {
    map q | q in Image(t, old_, new_) && q != new_ && ChildOf(Subst(q, new_, old_), old_) in done ::
      Image(t, old_, new_)[q]
  }

  lemma SubstThroughChild(old_: Path, new_: Path, x: string, q: Path)
    requires new_ + [x] <= q
    ensures new_ <= q && Subst(q, new_, old_) == Subst(q, new_ + [x], old_ + [x])
    ensures q != new_ && ChildOf(Subst(q, new_, old_), old_) == old_ + [x]
  {
    assert q[..|new_|] == (new_ + [x])[..|new_|] == new_;
    assert q[|new_|] == x;
    assert q[|new_|..] == [x] + q[|new_| + 1..];
  }

  lemma SubstIntoChild(old_: Path, new_: Path, x: string, q: Path)
    requires new_ < q && ChildOf(Subst(q, new_, old_), old_) == old_ + [x]
    ensures new_ + [x] <= q
  {
    assert Subst(q, new_, old_)[|old_|] == q[|new_|];
    assert (old_ + [x])[|old_|] == x;
  }

  /** A child's copy is its part of the whole. */
  lemma PartAdd(t: Tree, old_: Path, new_: Path, done: set<Path>, x: string)
    ensures ImagePart(t, old_, new_, done + {old_ + [x]})
         == ImagePart(t, old_, new_, done) + Image(t, old_ + [x], new_ + [x])
  {
    hide Subst, Image, ChildOf;
    var c, nc := old_ + [x], new_ + [x];
    forall q | q in Image(t, c, nc)
      ensures q in Image(t, old_, new_) && q != new_ && ChildOf(Subst(q, new_, old_), old_) == c
      ensures Image(t, c, nc)[q] == Image(t, old_, new_)[q]
    {
      SubstThroughChild(old_, new_, x, q);
    }
    forall q | q in Image(t, old_, new_) && q != new_ && ChildOf(Subst(q, new_, old_), old_) == c
      ensures q in Image(t, c, nc)
    {
      ProperPrefix(q, new_);
      SubstIntoChild(old_, new_, x, q);
      SubstThroughChild(old_, new_, x, q);
    }
  }

  lemma ProperPrefix(p: Path, d: Path)
    requires d <= p && p != d
    ensures d < p
  {
    assert p[..|p|] == p;
  }

  lemma PartNone(t: Tree, old_: Path, new_: Path)
    ensures ImagePart(t, old_, new_, {}) == map[]
  {
  }

  /** The parts of all children and the entry itself are the whole copy. */
  lemma PartAll(t: Tree, old_: Path, new_: Path)
    requires WellFormed(t) && old_ in t
    ensures map[new_ := t[old_]] + ImagePart(t, old_, new_, Children(t, old_)) == Image(t, old_, new_)
  {
    hide Subst, Children, Image;
    SubstSelf(new_, old_);
    forall q | q in Image(t, old_, new_) && q != new_
      ensures ChildOf(Subst(q, new_, old_), old_) in Children(t, old_)
    {
      ProperPrefix(q, new_);
      SubstBack(q, new_, old_);
      BelowIsBelowAChild(t, old_, Subst(q, new_, old_));
    }
  }

  lemma SubstSelf(p: Path, d: Path)
    ensures p <= p && Subst(p, p, d) == d
  {
  }

  lemma WithoutIsWellFormed(t: Tree, d: Path)
    requires WellFormed(t)
    ensures WellFormed(Without(t, d))
  {
    forall q | q in Without(t, d)
      ensures q != [] && DirAt(Without(t, d), Front(q))
    {
      if d <= Front(q) {
        FrontUnder(q, d);
      }
    }
  }

  // ---- paths as text ----

  /** A name the backend can hold: not empty, without the separator. */
  predicate Name(s: string) {
    s != "" && forall i :: 0 <= i < |s| ==> s[i] != '/'
  }

  predicate Names(p: Path) {
    forall i :: 0 <= i < |p| ==> Name(p[i])
  }

  /** The "/"-separated form, "" for the root. */
  function Text(p: Path): string {
    if p == [] then "" else if |p| == 1 then p[0] else p[0] + "/" + Text(p[1..])
  }

  lemma {:induction false} TextAppend(p: Path, q: Path)
    requires p != [] && q != []
    ensures Text(p + q) == Text(p) + "/" + Text(q)
  {
    assert (p + q)[1..] == p[1..] + q;
    if |p| == 1 {
      assert p[1..] + q == q;
    } else {
      TextAppend(p[1..], q);
    }
  }

  /** Where the first separator is. */
  function FirstSlash(s: string): nat {
    if s == "" || s[0] == '/' then 0 else 1 + FirstSlash(s[1..])
  }

  lemma {:induction false} SlashAfterName(s: string, rest: string)
    requires forall i :: 0 <= i < |s| ==> s[i] != '/'
    ensures FirstSlash(s + "/" + rest) == |s|
  {
    if s != "" {
      SlashAfterName(s[1..], rest);
      assert (s + "/" + rest)[1..] == s[1..] + "/" + rest;
    } else {
      assert s + "/" + rest == "/" + rest;
    }
  }

  /** The text of a path, ended by a separator, starts with its first name and the separator. */
  lemma TextSplits(p: Path)
    requires p != [] && Names(p)
    ensures var rest := if |p| == 1 then "" else Text(p[1..]) + "/";
            Text(p) + "/" == p[0] + "/" + rest
  {
  }

  /** Texts are equal only for equal paths. */
  lemma {:induction false} TextInjective(p: Path, q: Path)
    requires Names(p) && Names(q) && Text(p) == Text(q)
    ensures p == q
  {
    if p != [] && q != [] {
      SameFirstName(p, q);
      assert p == [p[0]] + p[1..] && q == [q[0]] + q[1..];
      TextInjective(p[1..], q[1..]);
    } else {
      TextNotEmpty(p);
      TextNotEmpty(q);
    }
  }

  lemma TextNotEmpty(p: Path)
    requires Names(p)
    ensures Text(p) == "" <==> p == []
  {
    if p != [] {
      assert Name(p[0]);
    }
  }

  lemma SameFirstName(p: Path, q: Path)
    requires p != [] && q != [] && Names(p) && Names(q) && Text(p) == Text(q)
    ensures p[0] == q[0] && Text(p[1..]) == Text(q[1..])
  {
    TextSplits(p);
    TextSplits(q);
    var a := if |p| == 1 then "" else Text(p[1..]) + "/";
    var b := if |q| == 1 then "" else Text(q[1..]) + "/";
    var t := Text(p) + "/";
    assert Name(p[0]) && Name(q[0]);
    SlashAfterName(p[0], a);
    SlashAfterName(q[0], b);
    assert p[0] == t[..|p[0]|] && q[0] == t[..|q[0]|];
    assert a == t[|p[0]| + 1..] && b == t[|p[0]| + 1..];
    if |p| > 1 {
      TextNotEmpty(p[1..]);
      assert a[..|a| - 1] == Text(p[1..]);
    }
    if |q| > 1 {
      TextNotEmpty(q[1..]);
      assert b[..|b| - 1] == Text(q[1..]);
    }
  }

  /** On texts, "equal or starting with old/" is lying under `old`. */
  lemma {:induction false} TextUnder(p: Path, old_: Path)
    requires Names(p) && Names(old_) && p != [] && old_ != []
    ensures old_ <= p <==> Text(p) == Text(old_) || Text(old_) + "/" <= Text(p)
  {
    if old_ <= p {
      assert p == old_ + p[|old_|..];
      if |p| > |old_| {
        TextAppend(old_, p[|old_|..]);
        assert Text(old_) + "/" <= Text(old_) + "/" + Text(p[|old_|..]);
      } else {
        assert p == old_;
      }
    }
    if Text(p) == Text(old_) {
      TextInjective(p, old_);
    } else if Text(old_) + "/" <= Text(p) {
      StartsWithText(p, old_);
    }
  }

  lemma {:induction false} StartsWithText(p: Path, old_: Path)
    requires Names(p) && Names(old_) && p != [] && old_ != [] && Text(old_) + "/" <= Text(p)
    ensures old_ <= p
    decreases |p|
  {
    hide Text;
    var t := Text(p);
    TextSplits(p);
    TextSplits(old_);
    var a := if |p| == 1 then "" else Text(p[1..]) + "/";
    var b := if |old_| == 1 then "" else Text(old_[1..]) + "/";
    var n := old_[0];
    assert Name(p[0]) && Name(n);
    assert n + "/" + b <= t;
    SplitStart(n, b, t);
    SlashAfterName(p[0], a);
    SlashAfterName(n, t[|n| + 1..] + "/");
    assert p[0] == (t + "/")[..|p[0]|] && n == (t + "/")[..|n|];
    assert p[0] == n;
    assert a == (t + "/")[|n| + 1..] == t[|n| + 1..] + "/";
    if |old_| > 1 {
      TextNotEmpty(old_[1..]);
      assert a[..|a| - 1] == t[|n| + 1..];
      assert |p| > 1;
      assert Text(p[1..]) == a[..|a| - 1];
      StartsWithText(p[1..], old_[1..]);
      assert p == [n] + p[1..] && old_ == [n] + old_[1..];
    } else {
      assert old_ == [n] <= p;
    }
  }

  lemma SplitStart(n: string, b: string, t: string)
    requires n + "/" + b <= t
    ensures t == n + "/" + t[|n| + 1..] && b <= t[|n| + 1..]
    ensures t + "/" == n + "/" + (t[|n| + 1..] + "/")
  {
    assert t[..|n|] == n;
    assert t[|n|] == '/';
  }

  /** On texts, the remapped key is the new prefix and the rest of the old key. */
  lemma TextSubst(p: Path, old_: Path, new_: Path)
    requires Names(p) && Names(old_) && Names(new_) && old_ <= p && old_ != [] && new_ != []
    ensures |Text(old_)| <= |Text(p)|
    ensures Text(Subst(p, old_, new_)) == if p == old_ then Text(new_) else Text(new_) + Text(p)[|Text(old_)|..]
  {
    hide Text;
    if p == old_ {
      assert Subst(p, old_, new_) == new_;
    } else {
      var rest := p[|old_|..];
      assert p == old_ + rest;
      TextAppend(old_, rest);
      TextAppend(new_, rest);
      AfterPrefix(Text(old_), Text(rest));
      assert Text(new_) + "/" + Text(rest) == Text(new_) + ("/" + Text(rest));
    }
  }

  lemma AfterPrefix(a: string, b: string)
    ensures (a + "/" + b)[|a|..] == "/" + b
  {
  }
}
