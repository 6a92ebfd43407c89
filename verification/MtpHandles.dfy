/** The MTP handle table: which handle names which entry, and what a scan or a rename makes of it. */
module MtpHandles {
  import opened MtpTree

  /** An entry of a store: the store's index and the path in it. */
  type Key = (nat, Path)

  datatype Obj = Obj(handle: nat, parent: nat, si: nat, path: Path, node: Node)

  type Handles = map<Key, nat>

  function KeyOf(o: Obj): Key {
    (o.si, o.path)
  }

  predicate Stored(stores: seq<Tree>, k: Key) {
    k.0 < |stores| && k.1 in stores[k.0]
  }

  predicate AllWellFormed(stores: seq<Tree>) {
    forall i :: 0 <= i < |stores| ==> WellFormed(stores[i])
  }

  predicate Injective(m: Handles) {
    forall a, b :: a in m && b in m && m[a] == m[b] ==> a == b
  }

  /** Handles are distinct and were all issued before `next`. */
  predicate TableOk(m: Handles, next: nat) {
    && Injective(m) && next >= 1
    && forall k :: k in m ==> 1 <= m[k] < next
  }

  /** Handles given up are old ones that no key has. */
  predicate RetiredOk(m: Handles, next: nat, retired: set<nat>) {
    && (forall h :: h in retired ==> h < next)
    && (forall k :: k in m ==> m[k] !in retired)
  }

  /** The handle of the directory an entry lies in, 0 for a store's root. */
  function ParentHandle(m: Handles, k: Key): nat
    requires k.1 != []
  {
    var up := (k.0, Front(k.1));
    if up.1 == [] then 0 else if up in m then m[up] else 0
  }

  function EntryAt(stores: seq<Tree>, m: Handles, k: Key): (o: Obj)
    requires Stored(stores, k) && k in m && k.1 != []
    ensures KeyOf(o) == k && o.handle == m[k]
  {
    Obj(m[k], ParentHandle(m, k), k.0, k.1, stores[k.0][k.1])
  }

  /** An object table that describes exactly the entries `alive`, each under its own handle. */
  predicate Describes(stores: seq<Tree>, m: Handles, objects: map<nat, Obj>, alive: set<Key>) {
    && (forall k :: k in alive ==>
          && Stored(stores, k) && k in m && k.1 != []
          && (Front(k.1) != [] ==> (k.0, Front(k.1)) in alive)
          && m[k] in objects && objects[m[k]] == EntryAt(stores, m, k))
    && (forall h :: h in objects ==> KeyOf(objects[h]) in alive && m[KeyOf(objects[h])] == h)
  }

  /** The table and the objects agree with the stores: a bijection between entries and handles. */
  ghost predicate Agrees(stores: seq<Tree>, m: Handles, objects: map<nat, Obj>) {
    && (forall k :: k in m <==> Stored(stores, k))
    && Describes(stores, m, objects, m.Keys)
  }

  ghost predicate InUse(m: Handles, n: int) {
    exists k :: k in m && m[k] == n
  }

  /** Every number from `next` up to `next2` was given out. */
  ghost predicate NoneSkipped(m: Handles, next: nat, next2: nat) {
    forall n :: next <= n < next2 ==> InUse(m, n)
  }

  /** `m2` is `m` with more keys, which took the next numbers, every one. */
  ghost predicate Extends(m: Handles, next: nat, m2: Handles, next2: nat) {
    && next <= next2 && NoneSkipped(m2, next, next2)
    && (forall k :: k in m ==> k in m2 && m2[k] == m[k])
    && (forall k :: k in m2 && k !in m ==> next <= m2[k])
    && (m2.Keys == m.Keys ==> next2 == next)
  }

  lemma ExtendsSame(m: Handles, next: nat)
    ensures Extends(m, next, m, next)
  {
  }

  lemma ExtendsAt(m: Handles, next: nat, m2: Handles, next2: nat, k: Key)
    requires Extends(m, next, m2, next2) && k in m
    ensures k in m2 && m2[k] == m[k]
  {
  }

  lemma ExtendsTransitive(m: Handles, n: nat, m2: Handles, n2: nat, m3: Handles, n3: nat)
    requires Extends(m, n, m2, n2) && Extends(m2, n2, m3, n3)
    ensures Extends(m, n, m3, n3)
  {
    if m3.Keys == m.Keys {
      assert m2.Keys == m.Keys;
    }
    forall x | n <= x < n3
      ensures InUse(m3, x)
    {
      if x < n2 {
        assert InUse(m2, x);
      }
    }
  }

  /** A new key takes the next number. */
  lemma ExtendsByOne(m: Handles, next: nat, k: Key)
    requires k !in m
    ensures Extends(m, next, m[k := next], next + 1)
    ensures TableOk(m, next) ==> TableOk(m[k := next], next + 1)
  {
    assert m[k := next][k] == next;
    assert InUse(m[k := next], next);
    assert k in m[k := next].Keys;
  }

  /** More keys in the table change no description. */
  lemma DescribesExtends(stores: seq<Tree>, m: Handles, n: nat, m2: Handles, n2: nat, objects: map<nat, Obj>,
                         alive: set<Key>)
    requires Describes(stores, m, objects, alive) && Extends(m, n, m2, n2)
    ensures Describes(stores, m2, objects, alive)
  {
    forall k | k in alive
      ensures k in m2 && k.1 != [] && objects[m2[k]] == EntryAt(stores, m2, k)
    {
      assert objects[m[k]] == EntryAt(stores, m, k);
    }
  }

  /** One more entry described. */
  lemma DescribesAdd(stores: seq<Tree>, m: Handles, objects: map<nat, Obj>, alive: set<Key>, k: Key)
    requires Describes(stores, m, objects, alive) && Injective(m)
    requires Stored(stores, k) && k in m && k.1 != [] && k !in alive
    requires Front(k.1) != [] ==> (k.0, Front(k.1)) in alive
    ensures Describes(stores, m, objects[m[k] := EntryAt(stores, m, k)], alive + {k})
  {
    hide EntryAt;
    HandleIsFree(stores, m, objects, alive, k);
  }

  lemma HandleIsFree(stores: seq<Tree>, m: Handles, objects: map<nat, Obj>, alive: set<Key>, k: Key)
    requires Describes(stores, m, objects, alive) && Injective(m) && k in m
    ensures m[k] in objects ==> k in alive
  {
    hide EntryAt;
    if m[k] in objects {
      assert KeyOf(objects[m[k]]) in alive;
    }
  }

  /** Forgetting the keys that are not alive. */
  function Kept(m: Handles, alive: set<Key>): Handles {
    map k | k in m && k in alive :: m[k]
  }

  lemma DescribesKept(stores: seq<Tree>, m: Handles, objects: map<nat, Obj>, alive: set<Key>)
    requires Describes(stores, m, objects, alive)
    ensures Describes(stores, Kept(m, alive), objects, alive)
    ensures Kept(m, alive).Keys == alive
  {
    var kept := Kept(m, alive);
    forall k | k in alive
      ensures k in kept && k.1 != [] && objects[kept[k]] == EntryAt(stores, kept, k)
    {
      assert objects[m[k]] == EntryAt(stores, m, k);
    }
  }

  // ---- a scan below one directory ----

  /** The entries below `d` that lie at or below one of the children `done`. */
  function ScannedKeys(stores: seq<Tree>, si: nat, d: Path, done: set<Path>): set<Key>
    requires si < |stores|
  {
    set p | p in Below(stores[si], d) && p[..|d| + 1] in done :: (si, p)
  }

  function BelowKeys(stores: seq<Tree>, si: nat, d: Path): set<Key>
    requires si < |stores|
  {
    set p | p in Below(stores[si], d) :: (si, p)
  }

  lemma ScannedAll(stores: seq<Tree>, si: nat, d: Path)
    requires si < |stores| && WellFormed(stores[si])
    ensures ScannedKeys(stores, si, d, Children(stores[si], d)) == BelowKeys(stores, si, d)
    ensures ScannedKeys(stores, si, d, {}) == {}
  {
    forall p | p in Below(stores[si], d)
      ensures p[..|d| + 1] in Children(stores[si], d)
    {
      BelowIsBelowAChild(stores[si], d, p);
    }
  }

  /** One more child scanned: its own key and everything below it. */
  lemma ScannedOne(stores: seq<Tree>, si: nat, d: Path, done: set<Path>, c: Path)
    requires si < |stores| && WellFormed(stores[si]) && c in Children(stores[si], d)
    ensures ScannedKeys(stores, si, d, done + {c})
         == ScannedKeys(stores, si, d, done) + {(si, c)} + BelowKeys(stores, si, c)
    ensures Below(stores[si], c) < Below(stores[si], d)
    ensures c !in done ==>
              forall p :: p == c || p in Below(stores[si], c) ==> (si, p) !in ScannedKeys(stores, si, d, done)
  {
    var t := stores[si];
    forall p | p == c || p in Below(t, c)
      ensures p in Below(t, d) && p[..|d| + 1] == c
    {
      ChildIsItsPrefix(t, d, c, p);
    }
    forall p | p in Below(t, d) && p[..|d| + 1] == c
      ensures p == c || p in Below(t, c)
    {
      BelowIsBelowAChild(t, d, p);
    }
    assert c !in Below(t, c);
  }

  // ---- a rename ----

  /** The remapped key: the path's prefix replaced, for the keys in the moved subtree. */
  function NewKey(k: Key, si: nat, old_: Path, new_: Path): Key {
    if k.0 == si && old_ <= k.1 then (si, Subst(k.1, old_, new_)) else k
  }

  predicate Moves(k: Key, si: nat, old_: Path) {
    k.0 == si && old_ <= k.1
  }

  /** The handles of a table after the keys `todo` have been remapped. */
  predicate RemappedBut(m: Handles, r: Handles, todo: set<Key>, si: nat, old_: Path, new_: Path) {
    && (forall k :: k in m ==>
          (if Moves(k, si, old_) && k !in todo then
             NewKey(k, si, old_, new_) in r && r[NewKey(k, si, old_, new_)] == m[k]
           else k in r && r[k] == m[k]))
    && (forall q :: q in r ==>
          || (q in m && (Moves(q, si, old_) ==> q in todo))
          || (Moves(q, si, new_) && NewKey(q, si, new_, old_) in m && NewKey(q, si, new_, old_) !in todo))
  }

  /** Every key remapped: the whole effect of a rename on the table. */
  predicate Renamed(m: Handles, r: Handles, si: nat, old_: Path, new_: Path) {
    RemappedBut(m, r, {}, si, old_, new_)
  }

  /** No key lies where the subtree goes. */
  predicate Room(m: Handles, si: nat, old_: Path, new_: Path) {
    !(old_ <= new_) && forall k :: k in m ==> !Moves(k, si, new_)
  }

  lemma NewKeyInjective(a: Key, b: Key, si: nat, old_: Path, new_: Path)
    requires Moves(a, si, old_) && Moves(b, si, old_) && NewKey(a, si, old_, new_) == NewKey(b, si, old_, new_)
    ensures a == b
  {
    SubstInjective(a.1, b.1, old_, new_);
  }

  lemma NewKeyBack(k: Key, si: nat, old_: Path, new_: Path)
    requires Moves(k, si, old_)
    ensures Moves(NewKey(k, si, old_, new_), si, new_)
    ensures NewKey(NewKey(k, si, old_, new_), si, new_, old_) == k
  {
    SubstBack(k.1, old_, new_);
  }

  /** One `table[new] = table.pop(old)`: the popped key is gone, the new key was free. */
  lemma RemapOne(m: Handles, r: Handles, todo: set<Key>, k: Key, si: nat, old_: Path, new_: Path)
    requires Room(m, si, old_, new_) && RemappedBut(m, r, todo, si, old_, new_)
    requires k in todo && k in m && Moves(k, si, old_)
    ensures k in r && NewKey(k, si, old_, new_) !in r
    ensures RemappedBut(m, (map q | q in r && q != k :: r[q])[NewKey(k, si, old_, new_) := r[k]], todo - {k},
                        si, old_, new_)
  {
    hide Subst, NewKey;
    var to := NewKey(k, si, old_, new_);
    NewKeyBack(k, si, old_, new_);
    var r2 := (map q | q in r && q != k :: r[q])[to := r[k]];
    forall a | a in m && Moves(a, si, old_) && a !in todo - {k}
      ensures NewKey(a, si, old_, new_) in r2 && r2[NewKey(a, si, old_, new_)] == m[a]
    {
      if a != k {
        NewKeyBack(a, si, old_, new_);
        if NewKey(a, si, old_, new_) == to {
          NewKeyInjective(a, k, si, old_, new_);
        }
      }
    }
  }

  lemma RemapNone(m: Handles, si: nat, old_: Path, new_: Path)
    requires Room(m, si, old_, new_)
    ensures RemappedBut(m, m, (set k | k in m && Moves(k, si, old_)), si, old_, new_)
  {
  }

  lemma RenamedKeys(stores: seq<Tree>, m: Handles, r: Handles, si: nat, old_: Path, new_: Path, k: Key)
    requires si < |stores| && (forall k :: k in m <==> Stored(stores, k)) && Renamed(m, r, si, old_, new_)
    ensures k in r <==> Stored(stores[si := Moved(stores[si], old_, new_)], k)
  {
    hide Subst;
    if Moves(k, si, new_) {
      NewKeyBack(k, si, new_, old_);
    }
  }

  /** Renaming keeps the table's handles distinct and issues none. */
  lemma RenamedOk(m: Handles, r: Handles, next: nat, si: nat, old_: Path, new_: Path)
    requires TableOk(m, next) && Room(m, si, old_, new_) && Renamed(m, r, si, old_, new_)
    ensures TableOk(r, next)
  {
    hide Subst, NewKey;
    forall a | a in r
      ensures (if Moves(a, si, new_) then NewKey(a, si, new_, old_) else a) in m
      ensures r[a] == m[if Moves(a, si, new_) then NewKey(a, si, new_, old_) else a]
    {
      if Moves(a, si, new_) {
        NewKeyBack(a, si, new_, old_);
      }
    }
    forall a, b | a in r && b in r && r[a] == r[b]
      ensures a == b
    {
      if Moves(a, si, new_) {
        NewKeyBack(a, si, new_, old_);
      }
      if Moves(b, si, new_) {
        NewKeyBack(b, si, new_, old_);
      }
    }
  }

  /** What a rename makes of one object: its path moved if it is in the subtree, its parent if it is the subtree's
      root. */
  function RenamedObj(r: Handles, o: Obj, si: nat, old_: Path, new_: Path): Obj
    requires new_ != []
  {
    if !Moves(KeyOf(o), si, old_) then o
    else o.(path := Subst(o.path, old_, new_),
            parent := if o.path == old_ then ParentHandle(r, (si, new_)) else o.parent)
  }

  lemma RenamedAt(m: Handles, r: Handles, si: nat, old_: Path, new_: Path, k: Key)
    requires Renamed(m, r, si, old_, new_) && k in m
    ensures NewKey(k, si, old_, new_) in r && r[NewKey(k, si, old_, new_)] == m[k]
  {
    hide Subst;
  }

  /** Everything but the root of the moved subtree keeps its parent's handle. */
  lemma ParentIsKept(m: Handles, r: Handles, si: nat, old_: Path, new_: Path, k: Key)
    requires Renamed(m, r, si, old_, new_) && old_ != [] && new_ != []
    requires k.1 != [] && (Front(k.1) != [] ==> (k.0, Front(k.1)) in m)
    requires k != (si, old_)
    ensures NewKey(k, si, old_, new_).1 != []
    ensures ParentHandle(r, NewKey(k, si, old_, new_)) == ParentHandle(m, k)
  {
    hide Renamed, Subst;
    var up := (k.0, Front(k.1));
    if up.1 != [] {
      RenamedAt(m, r, si, old_, new_, up);
    }
    if Moves(k, si, old_) {
      ProperPrefix(k.1, old_);
      SubstOfFront(k.1, old_, new_);
      SubstBack(k.1, old_, new_);
      SubstBack(Front(k.1), old_, new_);
    } else if Moves(up, si, old_) {
      FrontUnder(k.1, old_);
    }
  }

  /** After a rename every object keeps its handle, and only the moved subtree changes, by its path prefix. */
  lemma RenameKeepsHandles(stores: seq<Tree>, m: Handles, objects: map<nat, Obj>, r: Handles, after: map<nat, Obj>,
                           si: nat, old_: Path, new_: Path, h: nat)
    requires si < |stores| && WellFormed(stores[si]) && old_ != [] && CanMove(stores[si], old_, new_)
    requires Agrees(stores, m, objects) && Renamed(m, r, si, old_, new_)
    requires Agrees(stores[si := Moved(stores[si], old_, new_)], r, after)
    requires h in objects
    ensures h in after && after[h] == RenamedObj(r, objects[h], si, old_, new_)
  {
    hide Moved, Renamed, NewKey, ParentHandle, WellFormed;
    var k := KeyOf(objects[h]);
    var stores2 := stores[si := Moved(stores[si], old_, new_)];
    assert k in m && m[k] == h && objects[h] == EntryAt(stores, m, k);
    var q := NewKey(k, si, old_, new_);
    RenamedAt(m, r, si, old_, new_, k);
    assert q in r.Keys && after[h] == EntryAt(stores2, r, q);
    if k.0 == si {
      NodeMoves(stores[si], old_, new_, k.1);
    }
    NewKeyParts(k, si, old_, new_);
    if k != (si, old_) {
      ParentIsKept(m, r, si, old_, new_, k);
    }
  }

  lemma NewKeyParts(k: Key, si: nat, old_: Path, new_: Path)
    ensures NewKey(k, si, old_, new_) == if Moves(k, si, old_) then (si, Subst(k.1, old_, new_)) else k
    ensures Moves((si, old_), si, old_) && Subst(old_, old_, new_) == new_
  {
  }

  lemma SubstOfFront(p: Path, old_: Path, new_: Path)
    requires old_ < p
    ensures old_ <= Front(p) && p != [] && Subst(p, old_, new_) != []
            && Front(Subst(p, old_, new_)) == Subst(Front(p), old_, new_)
  {
    FrontPrefix(p, old_);
    assert Front(p)[|old_|..] == p[|old_|..|p| - 1];
  }

  lemma NodeMoves(t: Tree, old_: Path, new_: Path, p: Path)
    requires WellFormed(t) && p in t && CanMove(t, old_, new_)
    ensures old_ <= p ==>
              Subst(p, old_, new_) in Moved(t, old_, new_) && Moved(t, old_, new_)[Subst(p, old_, new_)] == t[p]
    ensures !(old_ <= p) ==> p in Moved(t, old_, new_) && Moved(t, old_, new_)[p] == t[p]
  {
    if old_ <= p {
      SubstBack(p, old_, new_);
    } else if new_ <= p {
      NothingUnder(t, new_, p);
    }
  }

  /** Each object of a rename comes from one there was: none appears. */
  lemma RenameAddsNone(stores: seq<Tree>, m: Handles, objects: map<nat, Obj>, r: Handles, after: map<nat, Obj>,
                       si: nat, old_: Path, new_: Path, h: nat)
    requires si < |stores| && Agrees(stores, m, objects) && Renamed(m, r, si, old_, new_)
    requires Agrees(stores[si := Moved(stores[si], old_, new_)], r, after)
    requires h in after
    ensures h in objects
  {
    hide Moved, EntryAt;
    var q := KeyOf(after[h]);
    assert q in r && r[q] == h;
    if Moves(q, si, new_) {
      NewKeyBack(q, si, new_, old_);
    }
  }

  // ---- a whole scan ----

  /** The keys of the first n stores. */
  function KeysUpTo(stores: seq<Tree>, n: nat): set<Key>
    requires n <= |stores|
  {
    set si, p | 0 <= si < n && p in stores[si] :: (si, p)
  }

  lemma KeysOfStore(stores: seq<Tree>, n: nat)
    requires n < |stores| && WellFormed(stores[n])
    ensures KeysUpTo(stores, n + 1) == KeysUpTo(stores, n) + BelowKeys(stores, n, [])
    ensures forall p :: p in Below(stores[n], []) ==> (n, p) !in KeysUpTo(stores, n)
  {
  }

  /** How a scan changes the table: entries still there keep their handles, new entries get new ones. */
  ghost predicate Advances(m: Handles, next: nat, m2: Handles, next2: nat) {
    && next <= next2 && NoneSkipped(m2, next, next2)
    && (forall k :: k in m2 ==> if k in m then m2[k] == m[k] else next <= m2[k])
    && (m2.Keys <= m.Keys ==> next2 == next)
  }

  /** Handles given up. */
  function Dropped(m: Handles, m2: Handles): set<nat> {
    set k | k in m && k !in m2 :: m[k]
  }

  /** The table after a scan that extended it from `m` to `m2` and kept the keys `alive`. */
  lemma ScanAdvances(m: Handles, next: nat, m2: Handles, next2: nat, alive: set<Key>, retired: set<nat>)
    requires TableOk(m, next) && TableOk(m2, next2) && Extends(m, next, m2, next2) && m2.Keys == m.Keys + alive
    requires RetiredOk(m, next, retired)
    ensures var kept := Kept(m2, alive);
            && TableOk(kept, next2) && Advances(m, next, kept, next2)
            && RetiredOk(kept, next2, retired + Dropped(m, kept))
  {
    var kept := Kept(m2, alive);
    if kept.Keys <= m.Keys {
      assert alive <= kept.Keys;
      assert m2.Keys == m.Keys;
    }
    forall k, a | k in kept && a in m && a !in kept
      ensures m[a] != kept[k]
    {
      assert m2[a] == m[a];
    }
    forall n | next <= n < next2
      ensures InUse(kept, n)
    {
      assert InUse(m2, n);
      var k :| k in m2 && m2[k] == n;
      assert k !in m && k in alive && kept[k] == n;
    }
  }
}
