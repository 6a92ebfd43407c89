/** `MtpStorage`: the object tree served over MTP, rescanned after every change to its stores. */
module MtpObjects {
  import opened Bytes
  import opened MtpTree
  import opened MtpHandles
  import opened MtpCopy

  class MtpStorage {
    /** The backends' contents. */
    var stores: seq<Tree>
    var handleOf: Handles
    var next: nat
    var objects: map<nat, Obj>
    /** Handles that were in use once and name nothing now. */
    ghost var retired: set<nat>

    ghost predicate TableValid()
      reads this
    {
      && AllWellFormed(stores) && TableOk(handleOf, next) && RetiredOk(handleOf, next, retired)
    }

    /** The handle table, the objects and the stores agree; no handle in use was ever given up. */
    ghost predicate Valid()
      reads this
    {
      && TableValid()
      && Agrees(stores, handleOf, objects)
    }

    method HandleFor(key: Key) returns (handle: nat)
      requires TableOk(handleOf, next)
      modifies `handleOf, `next
      ensures TableOk(handleOf, next) && Extends(old(handleOf), old(next), handleOf, next)
      ensures handleOf.Keys == old(handleOf).Keys + {key} && handle == handleOf[key]
    {
      hide Extends, TableOk;
      if key in handleOf {
        ExtendsSame(handleOf, next);
        assert handleOf.Keys == handleOf.Keys + {key};
        return handleOf[key];
      }
      ExtendsByOne(handleOf, next, key);
      handle := next;
      next := next + 1;
      handleOf := handleOf[key := handle];
    }

    /** One entry of a directory: its handle, its object, and if it is a directory everything below it. */
    method WalkChild(si: nat, rel: Path, parent: nat, c: Path, objs: map<nat, Obj>, alive: set<Key>)
        returns (out: map<nat, Obj>, live: set<Key>)
      requires si < |stores| && AllWellFormed(stores) && c in Children(stores[si], rel)
      requires TableOk(handleOf, next) && Describes(stores, handleOf, objs, alive)
      requires parent == if rel == [] then 0 else if (si, rel) in handleOf then handleOf[(si, rel)] else 0
      requires rel == [] || (si, rel) in alive
      requires forall p :: p == c || p in Below(stores[si], c) ==> (si, p) !in alive
      modifies `handleOf, `next
      ensures TableOk(handleOf, next) && Extends(old(handleOf), old(next), handleOf, next)
      ensures handleOf.Keys == old(handleOf).Keys + {(si, c)} + BelowKeys(stores, si, c)
      ensures live == alive + {(si, c)} + BelowKeys(stores, si, c)
      ensures Describes(stores, handleOf, out, live)
      decreases Below(stores[si], rel), 0
    {
      hide TableOk, Describes, Extends, BelowKeys, EntryAt;
      var key := (si, c);
      assert Front(c) == rel;
      ScannedOne(stores, si, rel, {}, c);
      TableIsInjective(handleOf, next);
      if rel != [] {
        AliveIsHeld(stores, handleOf, objs, alive, (si, rel));
      }
      live := alive + {key};
      var handle := HandleFor(key);
      label found:
      TableIsInjective(handleOf, next);
      DescribesExtends(stores, old(handleOf), old(next), handleOf, next, objs, alive);
      DescribesAdd(stores, handleOf, objs, alive, key);
      if rel != [] {
        ExtendsAt(old(handleOf), old(next), handleOf, next, (si, rel));
      }
      EntryIs(stores, handleOf, key);
      out := objs[handle := Obj(handle, parent, si, c, stores[si][c])];
      if stores[si][c].Dir? {
        out, live := Walk(si, c, handle, out, live);
        ExtendsTransitive(old(handleOf), old(next), old@found(handleOf), old@found(next), handleOf, next);
      } else {
        BelowIsInDirectory(stores[si], c);
        NothingBelow(stores, si, c);
      }
    }

    /** Everything below `rel` put into the object table, its keys into `alive`. */
    method Walk(si: nat, rel: Path, parent: nat, objs: map<nat, Obj>, alive: set<Key>)
        returns (out: map<nat, Obj>, live: set<Key>)
      requires si < |stores| && AllWellFormed(stores)
      requires TableOk(handleOf, next) && Describes(stores, handleOf, objs, alive)
      requires parent == if rel == [] then 0 else if (si, rel) in handleOf then handleOf[(si, rel)] else 0
      requires rel == [] || (si, rel) in alive
      requires forall p :: p in Below(stores[si], rel) ==> (si, p) !in alive
      modifies `handleOf, `next
      ensures TableOk(handleOf, next) && Extends(old(handleOf), old(next), handleOf, next)
      ensures handleOf.Keys == old(handleOf).Keys + BelowKeys(stores, si, rel)
      ensures live == alive + BelowKeys(stores, si, rel)
      ensures Describes(stores, handleOf, out, live)
      decreases Below(stores[si], rel), 1
    {
      hide TableOk, Describes, Extends, ScannedKeys, BelowKeys, WellFormed, Children;
      out, live := objs, alive;
      var todo := Children(stores[si], rel);
      ghost var done: set<Path> := {};
      ScannedAll(stores, si, rel);
      ExtendsSame(handleOf, next);
      if rel != [] {
        AliveIsHeld(stores, handleOf, objs, alive, (si, rel));
      }
      while todo != {}
        invariant done !! todo && done + todo == Children(stores[si], rel)
        invariant TableOk(handleOf, next) && Extends(old(handleOf), old(next), handleOf, next)
        invariant handleOf.Keys == old(handleOf).Keys + ScannedKeys(stores, si, rel, done)
        invariant live == alive + ScannedKeys(stores, si, rel, done)
        invariant Describes(stores, handleOf, out, live)
        invariant parent == if rel == [] then 0 else if (si, rel) in handleOf then handleOf[(si, rel)] else 0
        decreases todo
      {
        var c :| c in todo;
        todo := todo - {c};
        label before:
        ScannedOne(stores, si, rel, done, c);
        ChildIsBelow(stores[si], rel, c);
        out, live := WalkChild(si, rel, parent, c, out, live);
        ExtendsTransitive(old(handleOf), old(next), old@before(handleOf), old@before(next), handleOf, next);
        if rel != [] {
          ExtendsAt(old@before(handleOf), old@before(next), handleOf, next, (si, rel));
        }
        done := done + {c};
      }
    }

    method WalkStores() returns (objs: map<nat, Obj>, alive: set<Key>)
      requires AllWellFormed(stores) && TableOk(handleOf, next)
      modifies `handleOf, `next
      ensures TableOk(handleOf, next) && Extends(old(handleOf), old(next), handleOf, next)
      ensures alive == KeysUpTo(stores, |stores|) && handleOf.Keys == old(handleOf).Keys + alive
      ensures Describes(stores, handleOf, objs, alive)
    {
      hide TableOk, Describes, Extends, KeysUpTo, BelowKeys, Below, WellFormed;
      objs, alive := map[], {};
      NothingDescribed(stores, handleOf);
      ExtendsSame(handleOf, next);
      assert handleOf.Keys + {} == handleOf.Keys;
      var si := 0;
      while si < |stores|
        invariant 0 <= si <= |stores|
        invariant TableOk(handleOf, next) && Extends(old(handleOf), old(next), handleOf, next)
        invariant alive == KeysUpTo(stores, si)
        invariant handleOf.Keys == old(handleOf).Keys + alive
        invariant Describes(stores, handleOf, objs, alive)
      {
        label before:
        KeysOfStore(stores, si);
        objs, alive := Walk(si, [], 0, objs, alive);
        ExtendsTransitive(old(handleOf), old(next), old@before(handleOf), old@before(next), handleOf, next);
        si := si + 1;
      }
    }

    /** Walk every store afresh; keep the handles of what is still there. */
    method Rescan()
      requires TableValid()
      modifies `handleOf, `next, `objects, `retired
      ensures Valid()
      ensures Advances(old(handleOf), old(next), handleOf, next)
      ensures retired == old(retired) + Dropped(old(handleOf), handleOf)
    {
      hide TableOk, Describes, Extends, KeysUpTo, AllWellFormed, Advances, Dropped, RetiredOk, Agrees, Kept;
      var objs, alive := WalkStores();
      ScanAdvances(old(handleOf), old(next), handleOf, next, alive, retired);
      DescribesKept(stores, handleOf, objs, alive);
      objects := objs;
      handleOf := Kept(handleOf, alive);
      retired := retired + Dropped(old(handleOf), handleOf);
      RootIsNoEntry(stores, handleOf, objects);
    }

    constructor (stores: seq<Tree>)
      requires AllWellFormed(stores)
      ensures Valid() && this.stores == stores && retired == {}
      ensures NoneSkipped(handleOf, 1, next)
    {
      this.stores, handleOf, next, objects, retired := stores, map[], 1, map[], {};
      new;
      Rescan();
      assert Dropped(map[], handleOf) == {};
    }

    // ---- one entry changed ----

    /** `node` put at `path`, and the table brought up to date. */
    method Replace(si: nat, path: Path, node: Node)
      requires Valid() && si < |stores| && path != [] && DirAt(stores[si], Front(path))
      requires path in stores[si] ==> (stores[si][path].Dir? <==> node.Dir?)
      modifies this
      ensures Valid() && stores == old(stores)[si := old(stores)[si][path := node]]
      ensures Advances(old(handleOf), old(next), handleOf, next)
      ensures retired == old(retired) + Dropped(old(handleOf), handleOf)
      ensures (si, path) in handleOf
    {
      hide Advances, Dropped, TableOk, RetiredOk, Describes;
      PutIsWellFormed(stores[si], path, node);
      stores := stores[si := stores[si][path := node]];
      Rescan();
      assert Stored(stores, (si, path));
    }

    /** A new empty file; None where the backend refuses, a directory being in the way. */
    method MakeFile(si: nat, dir: Path, name: string) returns (handle: Option<nat>)
      requires Valid() && si < |stores| && DirAt(stores[si], dir)
      modifies this
      ensures Valid()
      ensures var path := dir + [name];
              if path in old(stores)[si] && old(stores)[si][path].Dir? then
                handle == None && stores == old(stores) && handleOf == old(handleOf) && objects == old(objects)
              else
                && stores == old(stores)[si := old(stores)[si][path := File([])]]
                && (si, path) in handleOf && handle == Some(handleOf[(si, path)])
      ensures Advances(old(handleOf), old(next), handleOf, next)
      ensures retired == old(retired) + Dropped(old(handleOf), handleOf)
    {
      var path := dir + [name];
      assert Front(path) == dir;
      if path in stores[si] && stores[si][path].Dir? {
        AdvancesSame(handleOf, next);
        NothingDropped(handleOf);
        return None;
      }
      Replace(si, path, File([]));
      return Some(handleOf[(si, path)]);
    }

    /** A new directory, or the one already there; None where the backend refuses, a file being in the way. */
    method MakeDir(si: nat, dir: Path, name: string) returns (handle: Option<nat>)
      requires Valid() && si < |stores| && DirAt(stores[si], dir)
      modifies this
      ensures Valid()
      ensures var path := dir + [name];
              if path in old(stores)[si] && old(stores)[si][path].File? then
                handle == None && stores == old(stores) && handleOf == old(handleOf) && objects == old(objects)
              else
                && stores == old(stores)[si := old(stores)[si][path := Dir]]
                && (si, path) in handleOf && handle == Some(handleOf[(si, path)])
      ensures Advances(old(handleOf), old(next), handleOf, next)
      ensures retired == old(retired) + Dropped(old(handleOf), handleOf)
    {
      var path := dir + [name];
      assert Front(path) == dir;
      if path in stores[si] && stores[si][path].File? {
        AdvancesSame(handleOf, next);
        NothingDropped(handleOf);
        return None;
      }
      Replace(si, path, Dir);
      return Some(handleOf[(si, path)]);
    }

    /** A file's contents replaced; false where the backend refuses, the object being a directory. */
    method WriteFile(handle: nat, data: seq<int>) returns (ok: bool)
      requires Valid() && handle in objects
      modifies this
      ensures Valid() && ok == old(objects)[handle].node.File?
      ensures !ok ==> stores == old(stores) && objects == old(objects)
      ensures ok ==> var o := old(objects)[handle];
                     && o.si < |old(stores)|
                     && stores == old(stores)[o.si := old(stores)[o.si][o.path := File(data)]]
      ensures handleOf == old(handleOf) && next == old(next) && retired == old(retired)
    {
      hide TableOk, RetiredOk, Agrees, Advances, Dropped, WellFormed, AllWellFormed;
      var o := objects[handle];
      ObjectAt(stores, handleOf, objects, handle);
      if o.node.Dir? {
        return false;
      }
      ParentIsDirectory(stores, o.si, o.path);
      Replace(o.si, o.path, File(data));
      SameKeysSameTable(old(stores), old(handleOf), old(objects), old(next), stores, handleOf, objects, next);
      assert retired == old(retired);
      return true;
    }

    /** An entry and everything below it removed, unless the backend refuses; its handles are given up for good. */
    method Delete(handle: nat, refused: bool) returns (ok: bool)
      requires Valid()
      modifies this
      ensures Valid() && ok == (handle in old(objects) && !refused)
      ensures !ok ==> stores == old(stores) && handleOf == old(handleOf)
      ensures !ok ==> objects == old(objects) && retired == old(retired)
      ensures ok ==> var o := old(objects)[handle];
                     && o.si < |old(stores)|
                     && stores == old(stores)[o.si := Without(old(stores)[o.si], o.path)]
      ensures ok ==> retired == old(retired) + Dropped(old(handleOf), handleOf) && handle in retired
      ensures Advances(old(handleOf), old(next), handleOf, next)
    {
      hide TableOk, RetiredOk, Agrees, Advances, Dropped, WellFormed, AllWellFormed;
      if handle !in objects {
        AdvancesSame(handleOf, next);
        return false;
      }
      var o := objects[handle];
      ObjectAt(stores, handleOf, objects, handle);
      if refused {
        AdvancesSame(handleOf, next);
        return false;
      }
      RemovedIsWellFormed(stores, o.si, o.path);
      stores := stores[o.si := Without(stores[o.si], o.path)];
      Rescan();
      GoneIsDropped(stores, old(handleOf), handleOf, objects, KeyOf(o));
      return true;
    }

    // ---- renaming ----

    /** The remap loop: every key of the moved subtree popped and put back under its new path. */
    method RemapHandles(si: nat, old_: Path, new_: Path)
      requires Room(handleOf, si, old_, new_)
      modifies `handleOf
      ensures Renamed(old(handleOf), handleOf, si, old_, new_)
    {
      hide Room, RemappedBut, NewKey, Moves, Subst;
      RemapNone(handleOf, si, old_, new_);
      var todo := set k | k in handleOf && Moves(k, si, old_);
      while todo != {}
        invariant todo <= old(handleOf).Keys && forall k :: k in todo ==> Moves(k, si, old_)
        invariant RemappedBut(old(handleOf), handleOf, todo, si, old_, new_)
        decreases todo
      {
        var oldKey :| oldKey in todo;
        RemapOne(old(handleOf), handleOf, todo, oldKey, si, old_, new_);
        var newKey := NewKey(oldKey, si, old_, new_);
        var handle := handleOf[oldKey];
        handleOf := map q | q in handleOf && q != oldKey :: handleOf[q];
        handleOf := handleOf[newKey := handle];
        todo := todo - {oldKey};
      }
    }

    /** A move within one store. */
    method MoveInStore(si: nat, old_: Path, new_: Path) returns (ok: bool)
      requires Valid() && si < |stores| && old_ in stores[si] && new_ != [] && new_ != old_
      modifies this
      ensures Valid() && ok == CanMove(old(stores)[si], old_, new_)
      ensures !ok ==> stores == old(stores) && handleOf == old(handleOf) && objects == old(objects)
      ensures ok ==> stores == old(stores)[si := Moved(old(stores)[si], old_, new_)]
      ensures ok ==> Renamed(old(handleOf), handleOf, si, old_, new_)
      ensures next == old(next) && retired == old(retired)
    {
      hide TableOk, RetiredOk, Agrees, Advances, Dropped, WellFormed, AllWellFormed, Moved, RemappedBut, Room;
      // the backend's own rename
      if new_ in stores[si] || old_ <= new_ || !DirAt(stores[si], Front(new_)) {
        return false;
      }
      MoveFacts(stores, handleOf, objects, next, retired, si, old_, new_);
      stores := stores[si := Moved(stores[si], old_, new_)];
      RemapHandles(si, old_, new_);
      MovedTable(old(stores), old(handleOf), old(objects), handleOf, next, retired, si, old_, new_);
      label remapped:
      Rescan();
      ScanFindsNothingNew(stores, old@remapped(handleOf), next, handleOf, objects, old@remapped(next));
      assert retired == old(retired);
      return true;
    }

    // ---- copying ----

    /** The backend's `mkdir` or `write` for one entry of a copy; nothing changes a directory already there. */
    method PutNode(si: nat, path: Path, node: Node)
      requires si < |stores|
      requires path in stores[si] ==> (stores[si][path].Dir? <==> node.Dir?)
      modifies `stores
      ensures stores == old(stores)[si := old(stores)[si][path := node]]
    {
      if node.Dir? && path in stores[si] {
        assert stores[si][path := node] == stores[si];
        return;
      }
      stores := stores[si := stores[si][path := node]];
    }

    /** The recursion over the object table, which still describes the stores as they were (`source`). */
    method CopyTree(handle: nat, destSi: nat, destDir: Path, name: string, ghost source: seq<Tree>, ghost root: Path)
      requires AllWellFormed(source) && TableOk(handleOf, next) && Agrees(source, handleOf, objects)
      requires handle in objects
      requires var o := objects[handle]; CopyFits(source, stores, o.si, destSi, root, o.path, destDir + [name])
      modifies `stores
      ensures var o := objects[handle];
              && o.si < |source| && destSi < |old(stores)|
              && stores == old(stores)[destSi := old(stores)[destSi] + Image(source[o.si], o.path, destDir + [name])]
      decreases if objects[handle].si < |source| then Below(source[objects[handle].si], objects[handle].path) else {}, 1
    {
      hide AllWellFormed, WellFormed, TableOk, Agrees, CopyFits, Partial, Image, Below, Children;
      var o := objects[handle];
      ghost var new_ := destDir + [name];
      ObjectAt(source, handleOf, objects, handle);
      CopyStarts(source, stores, o.si, destSi, root, o.path, new_);
      SourceIsRead(source, stores, o.si, destSi, root, o.path, new_);
      if o.node.File? {
        var data := stores[o.si][o.path];
        PutNode(destSi, destDir + [name], data);
        SourceFile(source, o.si, o.path, new_);
        OverlayOne(old(stores)[destSi], new_, o.node);
      } else {
        PutNode(destSi, destDir + [name], Dir);
        CopyChildren(handle, destSi, destDir + [name], source, old(stores), root);
        SourceIsWellFormed(source, o.si);
        CopyEnds(source, old(stores), o.si, destSi, o.path, new_);
      }
    }

    method CopyChildren(handle: nat, destSi: nat, new_: Path, ghost source: seq<Tree>, ghost base: seq<Tree>,
                        ghost root: Path)
      requires AllWellFormed(source) && TableOk(handleOf, next) && Agrees(source, handleOf, objects)
      requires handle in objects && objects[handle].node.Dir?
      requires var o := objects[handle];
               && CopyFits(source, base, o.si, destSi, root, o.path, new_)
               && stores == Partial(source, base, o.si, destSi, o.path, new_, {})
      modifies `stores
      ensures var o := objects[handle];
              && CopyFits(source, base, o.si, destSi, root, o.path, new_)
              && stores == Partial(source, base, o.si, destSi, o.path, new_, Children(source[o.si], o.path))
      decreases if objects[handle].si < |source| then Below(source[objects[handle].si], objects[handle].path) else {}, 0
    {
      hide AllWellFormed, WellFormed, TableOk, Agrees, Partial, Image, Below, Children, Untouched, Harmless, SameKinds,
           Pending;
      ghost var o := objects[handle];
      ghost var done: set<Path> := {};
      var todo := Kids(objects, handle);
      ObjectAt(source, handleOf, objects, handle);
      ChildrenAreTodo(source, handleOf, next, objects, handle, todo);
      while todo != {}
        invariant Pending(source, handleOf, objects, o.si, o.path, todo, done)
        invariant stores == Partial(source, base, o.si, destSi, o.path, new_, done)
        decreases todo
      {
        var h :| h in todo;
        PendingStep(source, handleOf, next, objects, o.si, o.path, todo, done, h);
        todo := todo - {h};
        var child := objects[h];
        ghost var x := child.path[|child.path| - 1];
        ChildFits(source, base, o.si, destSi, root, o.path, new_, done, x);
        ChildDone(source, base, o.si, destSi, o.path, new_, done, x);
        CopyTree(h, destSi, new_, child.path[|child.path| - 1], source, root);
        done := done + {child.path};
      }
      PendingNone(source, handleOf, objects, o.si, o.path, done);
    }

    /** A copy and its new handle, 0 for an object there is not. */
    method Copy(handle: nat, destSi: nat, destDir: Path, name: string) returns (copied: nat)
      requires Valid()
      requires handle in objects ==>
                 CopyFits(stores, stores, objects[handle].si, destSi, objects[handle].path, objects[handle].path,
                     destDir + [name])
      modifies this
      ensures Valid()
      ensures handle !in old(objects) ==>
                copied == 0 && stores == old(stores) && handleOf == old(handleOf) && objects == old(objects)
      ensures handle in old(objects) ==>
                var o := old(objects)[handle];
                && o.si < |old(stores)| && destSi < |old(stores)|
                && stores == old(stores)[destSi := old(stores)[destSi]
                                                   + Image(old(stores)[o.si], o.path, destDir + [name])]
                && (destSi, destDir + [name]) in handleOf && copied == handleOf[(destSi, destDir + [name])]
      ensures Advances(old(handleOf), old(next), handleOf, next)
      ensures retired == old(retired) + Dropped(old(handleOf), handleOf)
    {
      hide TableOk, RetiredOk, Agrees, Advances, Dropped, WellFormed, AllWellFormed, Image;
      if handle !in objects {
        AdvancesSame(handleOf, next);
        NothingDropped(handleOf);
        return 0;
      }
      var o := objects[handle];
      ObjectAt(stores, handleOf, objects, handle);
      CopyIsWellFormed(stores, o.si, destSi, o.path, o.path, destDir + [name]);
      CopyTree(handle, destSi, destDir, name, stores, o.path);
      Rescan();
      StoredHasHandle(stores, handleOf, objects, (destSi, destDir + [name]));
      return handleOf[(destSi, destDir + [name])];
    }

    /**
     * Rename or move: within a store by moving the subtree, handles and all; to another store by a copy
     * and a removal, the source staying where it is if the backend refuses to remove it.
     */
    method Rename(handle: nat, destSi: nat, destDir: Path, newName: string, refused: bool) returns (ok: bool)
      requires Valid()
      requires handle in objects && destSi != objects[handle].si ==>
                 CopyFits(stores, stores, objects[handle].si, destSi, objects[handle].path, objects[handle].path,
                     destDir + [newName])
      modifies this
      ensures Valid() && old(retired) <= retired && old(next) <= next
      ensures handle !in old(objects) ==> !ok
      ensures !ok ==> stores == old(stores) && handleOf == old(handleOf) && objects == old(objects)
      ensures handle in old(objects) ==>
                var o := old(objects)[handle];
                && o.si < |old(stores)|
                && var new_ := destDir + [newName];
                if destSi != o.si then
                  && ok && destSi < |old(stores)|
                  && stores == old(stores)[destSi := old(stores)[destSi] + Image(old(stores)[o.si], o.path, new_)]
                                          [o.si := if refused then old(stores)[o.si]
                                                   else Without(old(stores)[o.si], o.path)]
                  && Advances(old(handleOf), old(next), handleOf, next)
                  && retired == old(retired) + Dropped(old(handleOf), handleOf)
                else if new_ == o.path then
                  ok && stores == old(stores) && handleOf == old(handleOf) && objects == old(objects)
                else
                  && ok == CanMove(old(stores)[o.si], o.path, new_)
                  && (ok ==> stores == old(stores)[o.si := Moved(old(stores)[o.si], o.path, new_)])
                  && (ok ==> Renamed(old(handleOf), handleOf, o.si, o.path, new_))
                  && next == old(next) && retired == old(retired)
    {
      hide TableOk, RetiredOk, Agrees, Advances, Dropped, WellFormed, AllWellFormed, Image, Moved, RemappedBut;
      if handle !in objects {
        return false;
      }
      var o := objects[handle];
      ObjectAt(stores, handleOf, objects, handle);
      if destSi != o.si {
        CopyIsWellFormed(stores, o.si, destSi, o.path, o.path, destDir + [newName]);
        CopyTree(handle, destSi, destDir, newName, stores, o.path);
        if !refused {
          RemovedIsWellFormed(stores, o.si, o.path);
          stores := stores[o.si := Without(stores[o.si], o.path)];
        }
        Rescan();
        AdvancesForward(old(handleOf), old(next), handleOf, next);
        return true;
      }
      if destDir + [newName] == o.path {
        return true;
      }
      ok := MoveInStore(o.si, o.path, destDir + [newName]);
    }

    // ---- listing ----

    /** Every object below `handle`, each once (for 0, every object there is). */
    method Descendants(handle: nat) returns (out: seq<nat>)
      requires Valid()
      ensures multiset(out) == multiset(AllBelow(objects, handle))
    {
      hide TableOk, RetiredOk, Agrees, AllWellFormed, Expanded, Descends, AllBelow, Kids;
      out := [];
      var stack := [handle];
      ghost var found: set<nat>, pending: set<nat> := {}, {handle};
      ExpandedStart(objects, handle);
      while stack != []
        invariant multiset(out) == multiset(found) && multiset(stack) == multiset(pending)
        invariant Expanded(objects, handle, found, pending)
        decreases AllBelow(objects, handle) - found, |stack|
      {
        var cur := stack[|stack| - 1];
        StackTop(stack, pending);
        stack := stack[..|stack| - 1];
        var kids := Kids(objects, cur);
        ExpandedStep(stores, handleOf, next, objects, handle, found, pending, cur);
        out, stack := PushChildren(kids, out, stack, found, pending - {cur});
        found, pending := found + kids, pending - {cur} + kids;
      }
      EmptyStack(stack, pending);
      AllAreFound(stores, handleOf, next, objects, handle, found);
    }
  }

  /** The inner loop: every child appended to the result and pushed. */
  method PushChildren(kids: set<nat>, out: seq<nat>, stack: seq<nat>, ghost found: set<nat>, ghost pending: set<nat>)
      returns (out2: seq<nat>, stack2: seq<nat>)
    requires kids !! found && kids !! pending
    requires multiset(out) == multiset(found) && multiset(stack) == multiset(pending)
    ensures multiset(out2) == multiset(found + kids) && multiset(stack2) == multiset(pending + kids)
    ensures kids == {} ==> stack2 == stack
  {
    out2, stack2 := out, stack;
    var todo := kids;
    ghost var done: set<nat> := {};
    assert found + done == found && pending + done == pending;
    while todo != {}
      invariant done + todo == kids && done !! todo
      invariant multiset(out2) == multiset(found + done) && multiset(stack2) == multiset(pending + done)
      invariant kids == {} ==> stack2 == stack
      decreases todo
    {
      var child :| child in todo;
      todo := todo - {child};
      OneMore(out2, found + done, child);
      OneMore(stack2, pending + done, child);
      assert found + (done + {child}) == found + done + {child}
          && pending + (done + {child}) == pending + done + {child};
      out2, stack2, done := out2 + [child], stack2 + [child], done + {child};
    }
    assert done == kids;
  }

  lemma OneMore(s: seq<nat>, elements: set<nat>, x: nat)
    requires multiset(s) == multiset(elements) && x !in elements
    ensures multiset(s + [x]) == multiset(elements + {x})
  {
    assert multiset(elements + {x}) == multiset(elements) + multiset{x};
  }

  lemma EmptyStack(stack: seq<nat>, pending: set<nat>)
    requires stack == [] && multiset(stack) == multiset(pending)
    ensures pending == {}
  {
    assert forall x :: x in pending ==> x in multiset(pending);
  }

  /** What lies below a handle, by store and path; everything for the handle 0. */
  predicate Descends(objects: map<nat, Obj>, handle: nat, h: nat) {
    && h in objects
    && if handle in objects then objects[h].si == objects[handle].si && objects[handle].path < objects[h].path
       else handle == 0
  }

  function AllBelow(objects: map<nat, Obj>, handle: nat): set<nat> {
    set h | h in objects && Descends(objects, handle, h)
  }

  /** The objects whose parent is `cur`. */
  function Kids(objects: map<nat, Obj>, cur: nat): set<nat> {
    set h | h in objects && objects[h].parent == cur
  }

  /** The search so far: what is found lies below, and everything found that is not pending has its children found
      too. */
  predicate Expanded(objects: map<nat, Obj>, handle: nat, found: set<nat>, pending: set<nat>) {
    && pending <= found + {handle}
    && found <= AllBelow(objects, handle) && handle !in found
    && (forall h :: h in found ==> h in objects && objects[h].parent in found + {handle} - pending)
    && (forall h :: h in objects && objects[h].parent in found + {handle} - pending ==> h in found)
  }

  lemma ExpandedStart(objects: map<nat, Obj>, handle: nat)
    ensures Expanded(objects, handle, {}, {handle})
  {
  }

  lemma StackTop(stack: seq<nat>, pending: set<nat>)
    requires stack != [] && multiset(stack) == multiset(pending)
    ensures var cur := stack[|stack| - 1];
            cur in pending && multiset(stack[..|stack| - 1]) == multiset(pending - {cur})
  {
    var cur := stack[|stack| - 1];
    assert stack == stack[..|stack| - 1] + [cur];
    assert cur in multiset(stack);
    var rest: set<nat>, front: seq<nat> := pending - {cur}, stack[..|stack| - 1];
    assert pending == rest + {cur};
    assert multiset(rest + {cur}) == multiset(rest) + multiset{cur};
    assert multiset(stack) == multiset(front) + multiset{cur};
    Cancel(multiset(front), multiset(rest), multiset{cur});
  }

  lemma Cancel(a: multiset<nat>, b: multiset<nat>, c: multiset<nat>)
    requires a + c == b + c
    ensures a == b
  {
    assert (a + c) - c == a && (b + c) - c == b;
  }

  /** A parent is a real object, or 0 for an entry of a store's root. */
  lemma ParentIsObject(stores: seq<Tree>, m: Handles, objects: map<nat, Obj>, h: nat)
    requires Agrees(stores, m, objects) && h in objects && objects[h].parent != 0
    ensures objects[h].parent in objects
  {
    var k := KeyOf(objects[h]);
    assert k in m && objects[h] == EntryAt(stores, m, k);
  }

  lemma KidsDescend(stores: seq<Tree>, m: Handles, next: nat, objects: map<nat, Obj>, handle: nat, x: nat, h: nat)
    requires TableOk(m, next) && Agrees(stores, m, objects)
    requires h in objects && objects[h].parent == x
    requires x == handle || Descends(objects, handle, x)
    ensures Descends(objects, handle, h) && h != handle && h != x
  {
    hide TableOk, Agrees;
    if x in objects {
      ChildObjects(stores, m, next, objects, x, h);
      if handle in objects && x != handle {
        PrefixTrans(objects[handle].path, objects[x].path, objects[h].path);
      }
    } else if x != 0 {
      ParentIsObject(stores, m, objects, h);
    } else {
      ObjectAt(stores, m, objects, h);
      HandleIsPositive(m, next, KeyOf(objects[h]));
    }
  }

  lemma HandleIsPositive(m: Handles, next: nat, k: Key)
    requires TableOk(m, next) && k in m
    ensures m[k] >= 1
  {
  }

  lemma PrefixTrans(a: Path, b: Path, c: Path)
    requires a < b < c
    ensures a < c
  {
    assert c[..|a|] == b[..|a|];
  }

  lemma ExpandedStep(stores: seq<Tree>, m: Handles, next: nat, objects: map<nat, Obj>, handle: nat,
                     found: set<nat>, pending: set<nat>, cur: nat)
    requires TableOk(m, next) && Agrees(stores, m, objects)
    requires Expanded(objects, handle, found, pending) && cur in pending
    ensures var kids := Kids(objects, cur);
            && kids !! found && kids !! pending
            && Expanded(objects, handle, found + kids, pending - {cur} + kids)
            && (kids != {} ==> AllBelow(objects, handle) - (found + kids) < AllBelow(objects, handle) - found)
            && (kids == {} ==> found + kids == found)
  {
    hide TableOk, Agrees, Descends;
    var kids := Kids(objects, cur);
    if k :| k in kids {
      KidsDescend(stores, m, next, objects, handle, cur, k);
      assert k in AllBelow(objects, handle) - found;
    }
    forall h | h in kids
      ensures Descends(objects, handle, h) && h != handle && h != cur && h !in found
    {
      KidsDescend(stores, m, next, objects, handle, cur, h);
    }
  }

  lemma {:induction false} FoundWhenClosed(stores: seq<Tree>, m: Handles, next: nat, objects: map<nat, Obj>,
                                           handle: nat, found: set<nat>, h: nat)
    requires TableOk(m, next) && Agrees(stores, m, objects)
    requires Expanded(objects, handle, found, {}) && Descends(objects, handle, h)
    ensures h in found
    decreases if h in objects then |objects[h].path| else 0
  {
    hide TableOk, Agrees;
    var up := objects[h].parent;
    if up != handle {
      ParentDescends(stores, m, next, objects, handle, h);
      FoundWhenClosed(stores, m, next, objects, handle, found, up);
    }
  }

  /** Going up from a descendant one stays below the handle until reaching it. */
  lemma ParentDescends(stores: seq<Tree>, m: Handles, next: nat, objects: map<nat, Obj>, handle: nat, h: nat)
    requires TableOk(m, next) && Agrees(stores, m, objects) && Descends(objects, handle, h)
    requires objects[h].parent != handle
    ensures var up := objects[h].parent;
            Descends(objects, handle, up) && |objects[up].path| < |objects[h].path|
  {
    hide TableOk, Describes;
    var o := objects[h];
    ObjectAt(stores, m, objects, h);
    if handle in objects {
      var a := objects[handle].path;
      FrontPrefix(o.path, a);
      ObjectAt(stores, m, objects, handle);
    }
    ParentEntry(stores, m, next, objects, h);
    if o.parent != 0 {
      ParentIsObject(stores, m, objects, h);
      if handle in objects {
        if objects[handle].path == Front(o.path) {
          ObjectAt(stores, m, objects, handle);
        }
        ProperPrefix(Front(o.path), objects[handle].path);
      }
    }
  }

  lemma ParentEntry(stores: seq<Tree>, m: Handles, next: nat, objects: map<nat, Obj>, h: nat)
    requires TableOk(m, next) && Agrees(stores, m, objects) && h in objects
    ensures var o := objects[h];
            && o.path != []
            && (o.parent == 0 <==> Front(o.path) == [])
            && (o.parent != 0 ==> (o.si, Front(o.path)) in m && m[(o.si, Front(o.path))] == o.parent)
            && (o.parent != 0 ==> o.parent in objects && KeyOf(objects[o.parent]) == (o.si, Front(o.path)))
  {
    var k := KeyOf(objects[h]);
    assert k in m && objects[h] == EntryAt(stores, m, k);
    if Front(k.1) != [] {
      assert (k.0, Front(k.1)) in m;
    }
  }

  lemma AllAreFound(stores: seq<Tree>, m: Handles, next: nat, objects: map<nat, Obj>, handle: nat, found: set<nat>)
    requires TableOk(m, next) && Agrees(stores, m, objects) && Expanded(objects, handle, found, {})
    ensures found == AllBelow(objects, handle)
  {
    hide TableOk, Agrees, Descends;
    forall h | h in AllBelow(objects, handle)
      ensures h in found
    {
      FoundWhenClosed(stores, m, next, objects, handle, found, h);
    }
    assert found <= AllBelow(objects, handle) by {
      assert Expanded(objects, handle, found, {});
    }
  }

  /** The children still to copy are exactly those not done, each by its handle. */
  predicate Pending(source: seq<Tree>, m: Handles, objects: map<nat, Obj>, si: nat, d: Path, todo: set<nat>,
                    done: set<Path>)
    requires si < |source|
  {
    && done <= Children(source[si], d)
    && (forall h :: h in todo ==>
          && h in objects && objects[h].si == si
          && objects[h].path in Children(source[si], d) && objects[h].path !in done)
    && (forall c :: c in Children(source[si], d) && c !in done ==> (si, c) in m && m[(si, c)] in todo)
  }

  lemma PendingStep(source: seq<Tree>, m: Handles, next: nat, objects: map<nat, Obj>, si: nat, d: Path,
                    todo: set<nat>, done: set<Path>, h: nat)
    requires TableOk(m, next) && Agrees(source, m, objects) && si < |source|
    requires Pending(source, m, objects, si, d, todo, done) && h in todo
    ensures h in objects && objects[h].si == si
    ensures Pending(source, m, objects, si, d, todo - {h}, done + {objects[h].path})
    ensures var c := objects[h].path;
            && c in source[si] && c !in done && c != [] && c == d + [c[|c| - 1]]
            && Below(source[si], c) < Below(source[si], d)
  {
    hide Agrees, Children, Below;
    ObjectAt(source, m, objects, h);
    ChildName(source, si, d, objects[h].path);
    forall h2 | h2 in todo && h2 != h
      ensures objects[h2].path != objects[h].path
    {
      ObjectAt(source, m, objects, h2);
    }
  }

  lemma PendingNone(source: seq<Tree>, m: Handles, objects: map<nat, Obj>, si: nat, d: Path, done: set<Path>)
    requires si < |source| && Pending(source, m, objects, si, d, {}, done)
    ensures done == Children(source[si], d)
  {
  }

  lemma SourceIsRead(source: seq<Tree>, stores: seq<Tree>, si: nat, destSi: nat, root: Path, old_: Path, new_: Path)
    requires CopyFits(source, stores, si, destSi, root, old_, new_)
    ensures si < |stores| && destSi < |stores| && old_ in stores[si] && stores[si][old_] == source[si][old_]
  {
  }

  lemma SourceFile(source: seq<Tree>, si: nat, old_: Path, new_: Path)
    requires AllWellFormed(source) && si < |source| && old_ in source[si] && source[si][old_].File?
    ensures Image(source[si], old_, new_) == map[new_ := source[si][old_]]
  {
    FileImage(source[si], old_, new_);
  }

  lemma OverlayOne(t: Tree, path: Path, node: Node)
    ensures t + map[path := node] == t[path := node]
  {
  }

  lemma ChildrenAreTodo(source: seq<Tree>, m: Handles, next: nat, objects: map<nat, Obj>, handle: nat, todo: set<nat>)
    requires TableOk(m, next) && Agrees(source, m, objects) && handle in objects
    requires todo == Kids(objects, handle)
    ensures objects[handle].si < |source|
    ensures Pending(source, m, objects, objects[handle].si, objects[handle].path, todo, {})
  {
    hide TableOk, Agrees, Children;
    ObjectAt(source, m, objects, handle);
    forall h | h in todo
      ensures objects[h].si == objects[handle].si
      ensures objects[h].path in Children(source[objects[handle].si], objects[handle].path)
    {
      ChildObjects(source, m, next, objects, handle, h);
    }
    forall c | c in Children(source[objects[handle].si], objects[handle].path)
      ensures (objects[handle].si, c) in m && m[(objects[handle].si, c)] in todo
    {
      ChildIsStored(source, objects[handle].si, objects[handle].path, c);
      StoredHasHandle(source, m, objects, (objects[handle].si, c));
      ChildObjects(source, m, next, objects, handle, m[(objects[handle].si, c)]);
    }
  }

  lemma ChildIsStored(stores: seq<Tree>, si: nat, d: Path, c: Path)
    requires si < |stores| && c in Children(stores[si], d)
    ensures Stored(stores, (si, c))
  {
  }

  lemma StoredHasHandle(stores: seq<Tree>, m: Handles, objects: map<nat, Obj>, k: Key)
    requires Agrees(stores, m, objects) && Stored(stores, k)
    ensures k in m && m[k] in objects && KeyOf(objects[m[k]]) == k
  {
  }

  lemma ChildName(source: seq<Tree>, si: nat, d: Path, c: Path)
    requires si < |source| && c in Children(source[si], d)
    ensures c != [] && c == d + [c[|c| - 1]] && Below(source[si], c) < Below(source[si], d)
  {
    assert c[..|d|] == d;
    ChildIsBelow(source[si], d, c);
    assert c !in Below(source[si], c);
  }

  lemma SourceIsWellFormed(source: seq<Tree>, si: nat)
    requires AllWellFormed(source) && si < |source|
    ensures WellFormed(source[si])
  {
  }

  lemma CopyIsWellFormed(stores: seq<Tree>, si: nat, destSi: nat, root: Path, old_: Path, new_: Path)
    requires AllWellFormed(stores) && CopyFits(stores, stores, si, destSi, root, old_, new_)
    ensures AllWellFormed(stores[destSi := stores[destSi] + Image(stores[si], old_, new_)])
    ensures new_ in stores[destSi] + Image(stores[si], old_, new_)
  {
    hide Image;
    SubstSelf(new_, old_);
    OverlayIsWellFormed(stores[si], stores[destSi], old_, new_);
  }

  lemma NothingDropped(m: Handles)
    ensures Dropped(m, m) == {}
  {
  }

  lemma AdvancesForward(m: Handles, next: nat, m2: Handles, next2: nat)
    requires Advances(m, next, m2, next2)
    ensures next <= next2
  {
  }

  lemma MoveFacts(stores: seq<Tree>, m: Handles, objects: map<nat, Obj>, next: nat, retired: set<nat>, si: nat,
                  old_: Path, new_: Path)
    requires AllWellFormed(stores) && Agrees(stores, m, objects)
    requires si < |stores| && CanMove(stores[si], old_, new_)
    ensures old_ != [] && Room(m, si, old_, new_)
    ensures AllWellFormed(stores[si := Moved(stores[si], old_, new_)])
  {
    hide Moved, Describes;
    MovedIsWellFormed(stores[si], old_, new_);
    forall k | k in m
      ensures !Moves(k, si, new_)
    {
      assert Stored(stores, k);
      if Moves(k, si, new_) {
        NothingUnder(stores[si], new_, k.1);
      }
    }
  }

  lemma MovedTable(stores: seq<Tree>, m: Handles, objects: map<nat, Obj>, r: Handles, next: nat, retired: set<nat>,
                   si: nat, old_: Path, new_: Path)
    requires Agrees(stores, m, objects) && TableOk(m, next) && RetiredOk(m, next, retired) && Room(m, si, old_, new_)
    requires si < |stores| && Renamed(m, r, si, old_, new_)
    ensures TableOk(r, next) && RetiredOk(r, next, retired)
    ensures forall k :: k in r <==> Stored(stores[si := Moved(stores[si], old_, new_)], k)
  {
    hide Moved, Describes, TableOk, Stored;
    RenamedOk(m, r, next, si, old_, new_);
    forall k
      ensures k in r <==> Stored(stores[si := Moved(stores[si], old_, new_)], k)
    {
      RenamedKeys(stores, m, r, si, old_, new_, k);
    }
    forall k | k in r
      ensures r[k] !in retired
    {
      if Moves(k, si, new_) {
        NewKeyBack(k, si, new_, old_);
      }
    }
  }

  /** A scan of stores whose every entry is in the table leaves the table alone. */
  lemma ScanFindsNothingNew(stores: seq<Tree>, m: Handles, next2: nat, m2: Handles, objects: map<nat, Obj>, next: nat)
    requires forall k :: k in m <==> Stored(stores, k)
    requires Agrees(stores, m2, objects) && Advances(m, next, m2, next2)
    ensures m2 == m && next2 == next && Dropped(m, m2) == {}
  {
    hide Describes;
    assert m2.Keys == m.Keys;
  }

  /** An object is an entry of its store, under its own handle. */
  lemma ObjectAt(stores: seq<Tree>, m: Handles, objects: map<nat, Obj>, h: nat)
    requires Agrees(stores, m, objects) && h in objects
    ensures var o := objects[h];
            && o.si < |stores| && o.path in stores[o.si] && o.path != [] && o.node == stores[o.si][o.path]
            && KeyOf(o) in m && m[KeyOf(o)] == h
  {
    var k := KeyOf(objects[h]);
    assert k in m && objects[h] == EntryAt(stores, m, k);
  }

  lemma ParentIsDirectory(stores: seq<Tree>, si: nat, path: Path)
    requires AllWellFormed(stores) && si < |stores| && path in stores[si]
    ensures path != [] && DirAt(stores[si], Front(path))
  {
  }

  lemma RemovedIsWellFormed(stores: seq<Tree>, si: nat, path: Path)
    requires AllWellFormed(stores) && si < |stores|
    ensures AllWellFormed(stores[si := Without(stores[si], path)])
  {
    WithoutIsWellFormed(stores[si], path);
  }

  lemma GoneIsDropped(stores: seq<Tree>, m: Handles, m2: Handles, objects: map<nat, Obj>, k: Key)
    requires Agrees(stores, m2, objects) && k in m && !Stored(stores, k)
    ensures m[k] in Dropped(m, m2)
  {
  }

  lemma AdvancesSame(m: Handles, next: nat)
    ensures Advances(m, next, m, next)
  {
  }

  lemma PutIsWellFormed(t: Tree, path: Path, node: Node)
    requires WellFormed(t) && path != [] && DirAt(t, Front(path))
    requires path in t ==> (t[path].Dir? <==> node.Dir?)
    ensures WellFormed(t[path := node])
  {
  }

  /** A change that adds and removes no entry changes no handle. */
  lemma SameKeysSameTable(stores: seq<Tree>, m: Handles, objects: map<nat, Obj>, next: nat,
                          stores2: seq<Tree>, m2: Handles, objects2: map<nat, Obj>, next2: nat)
    requires Agrees(stores, m, objects) && Agrees(stores2, m2, objects2)
    requires Advances(m, next, m2, next2)
    requires |stores| == |stores2| && forall i :: 0 <= i < |stores| ==> stores[i].Keys == stores2[i].Keys
    ensures m2 == m && next2 == next && Dropped(m, m2) == {}
  {
    hide Describes;
    assert forall k :: Stored(stores, k) <==> Stored(stores2, k);
    assert m2.Keys == m.Keys;
  }

  /** Across any scan an entry that is still there unchanged is the same object: handle, parent and all. */
  lemma SurvivorsAreKept(stores: seq<Tree>, m: Handles, objects: map<nat, Obj>, next: nat,
                         stores2: seq<Tree>, m2: Handles, objects2: map<nat, Obj>, next2: nat, h: nat)
    requires Agrees(stores, m, objects) && Agrees(stores2, m2, objects2) && Advances(m, next, m2, next2)
    requires h in objects && Stored(stores2, KeyOf(objects[h]))
    requires stores2[objects[h].si][objects[h].path] == objects[h].node
    ensures h in objects2 && objects2[h] == objects[h]
  {
    var k := KeyOf(objects[h]);
    assert k in m && m[k] == h && objects[h] == EntryAt(stores, m, k);
    assert k in m2 && m2[k] == h && objects2[h] == EntryAt(stores2, m2, k);
  }

  lemma NothingDescribed(stores: seq<Tree>, m: Handles)
    ensures Describes(stores, m, map[], {}) && KeysUpTo(stores, 0) == {}
  {
  }

  lemma RootIsNoEntry(stores: seq<Tree>, m: Handles, objects: map<nat, Obj>)
    requires Describes(stores, m, objects, KeysUpTo(stores, |stores|)) && m.Keys == KeysUpTo(stores, |stores|)
    ensures Agrees(stores, m, objects)
  {
  }

  lemma TableIsInjective(m: Handles, next: nat)
    requires TableOk(m, next)
    ensures Injective(m)
  {
  }

  lemma AliveIsHeld(stores: seq<Tree>, m: Handles, objects: map<nat, Obj>, alive: set<Key>, k: Key)
    requires Describes(stores, m, objects, alive) && k in alive
    ensures k in m
  {
  }

  lemma EntryIs(stores: seq<Tree>, m: Handles, k: Key)
    requires Stored(stores, k) && k in m && k.1 != []
    ensures EntryAt(stores, m, k) == Obj(m[k], ParentHandle(m, k), k.0, k.1, stores[k.0][k.1])
  {
  }

  lemma NothingBelow(stores: seq<Tree>, si: nat, d: Path)
    requires si < |stores| && Below(stores[si], d) == {}
    ensures BelowKeys(stores, si, d) == {}
  {
  }

  lemma ChildIsBelow(t: Tree, d: Path, c: Path)
    requires c in Children(t, d)
    ensures c in Below(t, d) && forall p :: p in Below(t, c) ==> p in Below(t, d)
  {
    forall p | p in Below(t, c)
      ensures p in Below(t, d)
    {
      ChildIsItsPrefix(t, d, c, p);
    }
  }
}
