/** The recursive copy as a growing overlay: what holds between one child and the next. */
module MtpCopy {
  import opened MtpTree
  import opened MtpHandles

  /** The entries of `source` at and below `root` are still what they were. */
  predicate Untouched(source: seq<Tree>, stores: seq<Tree>, si: nat, root: Path)
    requires si < |source| == |stores|
  {
    forall p :: p in source[si] && root <= p ==> p in stores[si] && stores[si][p] == source[si][p]
  }

  /**
   * What a copy of `old_` to `new_` needs: a directory to go into, no file where a directory goes or the
   * other way round, and a source that the copy itself does not change while it is read.
   */
  predicate CopyFits(source: seq<Tree>, stores: seq<Tree>, si: nat, destSi: nat, root: Path, old_: Path, new_: Path) {
    && si < |source| == |stores| && destSi < |stores|
    && old_ in source[si] && root <= old_ && new_ != []
    && DirAt(stores[destSi], Front(new_))
    && SameKinds(stores[destSi], Image(source[si], old_, new_))
    && Untouched(source, stores, si, root)
    && (si == destSi ==> Harmless(source[si], root, Image(source[si], old_, new_)))
  }

  /** The stores once the entry itself and the children `done` are copied. */
  function Partial(source: seq<Tree>, stores: seq<Tree>, si: nat, destSi: nat, old_: Path, new_: Path,
                   done: set<Path>): seq<Tree>
    requires si < |source| && destSi < |stores| && old_ in source[si]
  {
    stores[destSi := stores[destSi] + (map[new_ := source[si][old_]] + ImagePart(source[si], old_, new_, done))]
  }

  lemma OverlayKeepsSource(source: seq<Tree>, stores: seq<Tree>, si: nat, destSi: nat, root: Path, overlay: Tree,
                           image: Tree)
    requires si < |source| == |stores| && destSi < |stores|
    requires Untouched(source, stores, si, root)
    requires si == destSi ==> Harmless(source[si], root, image)
    requires forall q :: q in overlay ==> q in image && overlay[q] == image[q]
    ensures Untouched(source, stores[destSi := stores[destSi] + overlay], si, root)
  {
  }

  lemma PartIsImage(source: seq<Tree>, si: nat, old_: Path, new_: Path, done: set<Path>)
    requires si < |source| && old_ in source[si]
    ensures var overlay := map[new_ := source[si][old_]] + ImagePart(source[si], old_, new_, done);
            var image := Image(source[si], old_, new_);
            forall q :: q in overlay ==> q in image && overlay[q] == image[q]
  {
    SubstSelf(new_, old_);
  }

  /** Making the directory (or finding it there) is the first part. */
  lemma CopyStarts(source: seq<Tree>, stores: seq<Tree>, si: nat, destSi: nat, root: Path, old_: Path, new_: Path)
    requires CopyFits(source, stores, si, destSi, root, old_, new_)
    ensures Partial(source, stores, si, destSi, old_, new_, {})
            == stores[destSi := stores[destSi][new_ := source[si][old_]]]
    ensures new_ in stores[destSi] ==> (stores[destSi][new_].Dir? <==> source[si][old_].Dir?)
  {
    hide Image;
    PartNone(source[si], old_, new_);
    PartIsImage(source, si, old_, new_, {});
    var node := source[si][old_];
    assert stores[destSi] + (map[new_ := node] + map[]) == stores[destSi][new_ := node];
    assert new_ in map[new_ := node] + ImagePart(source[si], old_, new_, {});
  }

  /** Between two children the copy of the next one fits. */
  lemma ChildFits(source: seq<Tree>, stores: seq<Tree>, si: nat, destSi: nat, root: Path, old_: Path, new_: Path,
                  done: set<Path>, x: string)
    requires CopyFits(source, stores, si, destSi, root, old_, new_) && source[si][old_].Dir?
    requires old_ + [x] in source[si] && old_ + [x] !in done
    ensures CopyFits(source, Partial(source, stores, si, destSi, old_, new_, done), si, destSi, root,
                     old_ + [x], new_ + [x])
  {
    hide Image, Subst, ChildOf;
    var image, child := Image(source[si], old_, new_), Image(source[si], old_ + [x], new_ + [x]);
    var overlay := map[new_ := source[si][old_]] + ImagePart(source[si], old_, new_, done);
    PartIsImage(source, si, old_, new_, done);
    OverlayKeepsSource(source, stores, si, destSi, root, overlay, image);
    assert Front(new_ + [x]) == new_;
    assert new_ in overlay && overlay[new_] == source[si][old_];
    forall q | q in child
      ensures q in image && child[q] == image[q] && q !in overlay
    {
      ChildImage(source[si], old_, new_, x, q);
    }
  }

  lemma ChildImage(t: Tree, old_: Path, new_: Path, x: string, q: Path)
    requires q in Image(t, old_ + [x], new_ + [x])
    ensures q in Image(t, old_, new_) && Image(t, old_, new_)[q] == Image(t, old_ + [x], new_ + [x])[q]
    ensures new_ <= q && q != new_ && ChildOf(Subst(q, new_, old_), old_) == old_ + [x]
  {
    hide Image, Subst, ChildOf;
    SubstThroughChild(old_, new_, x, q);
  }

  /** And its copy is the next part. */
  lemma ChildDone(source: seq<Tree>, stores: seq<Tree>, si: nat, destSi: nat, old_: Path, new_: Path, done: set<Path>,
                  x: string)
    requires si < |source| && destSi < |stores| && old_ in source[si]
    ensures var before := Partial(source, stores, si, destSi, old_, new_, done);
            before[destSi := before[destSi] + Image(source[si], old_ + [x], new_ + [x])]
            == Partial(source, stores, si, destSi, old_, new_, done + {old_ + [x]})
  {
    hide Image, ImagePart;
    PartAdd(source[si], old_, new_, done, x);
    var a, b, c, d := stores[destSi], map[new_ := source[si][old_]], ImagePart(source[si], old_, new_, done),
                      Image(source[si], old_ + [x], new_ + [x]);
    OverlayAssoc(a, b, c, d);
  }

  lemma OverlayAssoc(a: Tree, b: Tree, c: Tree, d: Tree)
    ensures (a + (b + c)) + d == a + (b + (c + d))
  {
  }

  lemma CopyEnds(source: seq<Tree>, stores: seq<Tree>, si: nat, destSi: nat, old_: Path, new_: Path)
    requires si < |source| && destSi < |stores| && old_ in source[si] && WellFormed(source[si])
    ensures Partial(source, stores, si, destSi, old_, new_, Children(source[si], old_))
         == stores[destSi := stores[destSi] + Image(source[si], old_, new_)]
  {
    hide Image, ImagePart, Children;
    PartAll(source[si], old_, new_);
  }

  /** A file's copy is the file. */
  lemma FileImage(t: Tree, old_: Path, new_: Path)
    requires WellFormed(t) && old_ in t && !t[old_].Dir?
    ensures Image(t, old_, new_) == map[new_ := t[old_]]
  {
    BelowIsInDirectory(t, old_);
    PartAll(t, old_, new_);
    assert Children(t, old_) <= Below(t, old_);
    PartNone(t, old_, new_);
    assert map[new_ := t[old_]] + map[] == map[new_ := t[old_]];
  }

  /** The objects whose parent is a given directory are that directory's children. */
  lemma ChildObjects(stores: seq<Tree>, m: Handles, next: nat, objects: map<nat, Obj>, handle: nat, h: nat)
    requires TableOk(m, next) && Agrees(stores, m, objects) && handle in objects && h in objects
    ensures objects[h].parent == handle
       <==> && objects[h].si == objects[handle].si
            && objects[h].path in Children(stores[objects[handle].si], objects[handle].path)
  {
    var k, d := KeyOf(objects[h]), KeyOf(objects[handle]);
    assert k in m && objects[h] == EntryAt(stores, m, k);
    assert d in m && m[d] == handle && d.1 != [];
    var up := (k.0, Front(k.1));
    if up.1 != [] {
      assert up in m;
    }
    if objects[h].parent == handle {
      assert up == d;
      assert k.1[..|d.1|] == d.1;
    }
    if && objects[h].si == objects[handle].si
       && objects[h].path in Children(stores[objects[handle].si], objects[handle].path) {
      assert k.1[..|d.1|] == d.1;
      assert Front(k.1) == d.1;
      assert up == d;
    }
  }
}
