/** GetObjectHandles and GetObjectPropList over the storage object (usbip/classes/device/mtp.py list_handles,
    _object_prop_list): which handles a request selects, and what the host's parser makes of the answer. */
module MtpListing {
  import opened Bytes
  import opened MtpObjects
  import H = MtpHandles
  import L = PropertyList

  /** "Objects in the root" in operation parameters. */
  const ROOT: nat := 0xFFFF_FFFF

  /** The attributes listed for the objects of a storage. */
  predicate Mirrors(objects: map<nat, H.Obj>, props: map<nat, L.Obj>) {
    objects.Keys == props.Keys && forall h :: h in objects ==> props[h].parent == objects[h].parent
  }

  predicate Ascending(r: seq<nat>) {
    forall i, j :: 0 <= i < j < |r| ==> r[i] < r[j]
  }

  predicate AtMost(x: nat, s: set<nat>) {
    forall y :: y in s ==> x <= y
  }

  lemma {:induction false} LeastExists(s: set<nat>) returns (least: nat)
    requires s != {}
    ensures least in s && AtMost(least, s)
    decreases s
  {
    var x :| x in s;
    var rest := s - {x};
    least := x;
    if rest != {} {
      var m := LeastExists(rest);
      least := if x <= m then x else m;
    }
    forall y | y in s
      ensures least <= y
    {
      assert y != x ==> y in rest;
    }
  }

  lemma OneMore(r: seq<nat>, done: set<nat>, x: nat)
    requires multiset(r) == multiset(done) && x !in done
    ensures multiset(r + [x]) == multiset(done + {x})
  {
    assert multiset(r + [x]) == multiset(r) + multiset{x};
    assert multiset(done + {x}) == multiset(done) + multiset{x};
  }

  /** `sorted` of distinct handles. */
  method Sorted(s: set<nat>) returns (r: seq<nat>)
    ensures Ascending(r) && multiset(r) == multiset(s)
  {
    hide AtMost;
    r := [];
    var todo := s;
    ghost var done: set<nat> := {};
    while todo != {}
      invariant done !! todo && done + todo == s && multiset(r) == multiset(done)
      invariant Ascending(r) && Under(r, todo)
      decreases todo
    {
      ghost var least := LeastExists(todo);
      var x :| x in todo && AtMost(x, todo);
      OneMore(r, done, x);
      StaysUnder(r, todo, x);
      assert done + {x} + (todo - {x}) == done + todo;
      r, todo, done := r + [x], todo - {x}, done + {x};
    }
    assert done == s;
  }

  predicate Under(r: seq<nat>, s: set<nat>) {
    forall i, y :: 0 <= i < |r| && y in s ==> r[i] < y
  }

  lemma StaysUnder(r: seq<nat>, todo: set<nat>, x: nat)
    requires Ascending(r) && Under(r, todo) && x in todo && AtMost(x, todo)
    ensures Ascending(r + [x]) && Under(r + [x], todo - {x})
  {
  }

  predicate Listed(o: L.Obj, storageId: nat, fmt: nat, parent: nat) {
    && (storageId == 0 || storageId == L.ALL || o.storage == storageId)
    && (if parent == ROOT then o.parent == 0 else parent == 0 || o.parent == parent)
    && (fmt == 0 || o.fmt == fmt)
  }

  /** `list_handles`: the loop over the objects with its three filters, then sorted. */
  method ListHandles(props: map<nat, L.Obj>, storageId: nat, fmt: nat, parent: nat) returns (sel: seq<nat>)
    ensures Ascending(sel)
    ensures multiset(sel) == multiset(set h | h in props && Listed(props[h], storageId, fmt, parent))
  {
    var picked: set<nat>, todo := {}, props.Keys;
    while todo != {}
      invariant todo <= props.Keys
      invariant picked == set h | h in props && h !in todo && Listed(props[h], storageId, fmt, parent)
      decreases todo
    {
      var h :| h in todo;
      var o := props[h];
      todo := todo - {h};
      if storageId != 0 && storageId != L.ALL && o.storage != storageId {
      } else if parent == ROOT && o.parent != 0 {
      } else if parent != ROOT && parent != 0 && o.parent != parent {
      } else if fmt != 0 && o.fmt != fmt {
      } else {
        picked := picked + {h};
      }
    }
    assert picked == set h | h in props && Listed(props[h], storageId, fmt, parent);
    sel := Sorted(picked);
  }

  /** What a property list request selects: all objects, those in a root, or one and, asked for, all below it. */
  function Chosen(objects: map<nat, H.Obj>, handle: nat, depth: nat): set<nat> {
    if handle == L.ALL then objects.Keys
    else if handle == 0 then set h | h in objects && objects[h].parent == 0
    else if depth == L.ALL then {handle} + AllBelow(objects, handle)
    else {handle}
  }

  lemma NotBelowItself(objects: map<nat, H.Obj>, handle: nat)
    ensures handle !in AllBelow(objects, handle)
  {
  }

  method SelectHandles(storage: MtpStorage, props: map<nat, L.Obj>, handle: nat, depth: nat) returns (handles: seq<nat>)
    requires storage.Valid() && Mirrors(storage.objects, props)
    ensures multiset(handles) == multiset(Chosen(storage.objects, handle, depth))
    ensures handle == L.ALL || handle == 0 ==> Ascending(handles)
    ensures handle != L.ALL && handle != 0 ==> handles != [] && handles[0] == handle
  {
    hide AllBelow, Listed, Chosen, Mirrors;
    ChosenCases(storage.objects, props, handle, depth);
    if handle == L.ALL {
      handles := Sorted(props.Keys);
    } else if handle == 0 {
      handles := ListHandles(props, L.ALL, 0, ROOT);
    } else {
      handles := [handle];
      if depth == L.ALL {
        var below := storage.Descendants(handle);
        WithBelow(storage.objects, handle, below);
        handles := [handle] + below;
      }
    }
  }

  lemma ChosenCases(objects: map<nat, H.Obj>, props: map<nat, L.Obj>, handle: nat, depth: nat)
    requires Mirrors(objects, props)
    ensures Chosen(objects, handle, depth)
         == if handle == L.ALL then props.Keys
            else if handle == 0 then set h | h in props && Listed(props[h], L.ALL, 0, ROOT)
            else if depth == L.ALL then {handle} + AllBelow(objects, handle)
            else {handle}
  {
    hide AllBelow;
  }

  lemma WithBelow(objects: map<nat, H.Obj>, handle: nat, below: seq<nat>)
    requires multiset(below) == multiset(AllBelow(objects, handle))
    ensures multiset([handle] + below) == multiset({handle} + AllBelow(objects, handle))
  {
    NotBelowItself(objects, handle);
    hide AllBelow;
    assert multiset({handle} + AllBelow(objects, handle)) == multiset({handle}) + multiset(AllBelow(objects, handle));
  }

  // ---- from request to parsed answer ------------------------------------------------------

  /** What the host should learn: the supported properties of exactly the chosen objects of the format. */
  function Answer(objects: map<nat, H.Obj>, props: map<nat, L.Obj>, handle: nat, depth: nat, fmt: nat,
                  codes: seq<nat>, readOnly: bool): L.Table {
    map h | h in Chosen(objects, handle, depth) && h in props && (fmt == 0 || props[h].fmt == fmt)
            && L.PropsOf(props[h], codes, readOnly) != map[]
      :: L.PropsOf(props[h], codes, readOnly)
  }

  lemma {:induction false} EntriesForBound(h: nat, o: L.Obj, codes: seq<nat>, readOnly: bool)
    ensures |L.EntriesFor(h, o, codes, readOnly)| <= |codes|
  {
    hide L.Prop;
    if codes != [] {
      EntriesForBound(h, o, codes[..|codes| - 1], readOnly);
    }
  }

  lemma {:induction false} AllEntriesBound(props: map<nat, L.Obj>, handles: seq<nat>, codes: seq<nat>, readOnly: bool)
    requires |codes| <= 9
    ensures |L.AllEntries(props, handles, codes, readOnly)| <= 9 * |handles|
  {
    hide L.EntriesFor;
    if handles != [] {
      var n := |handles| - 1;
      AllEntriesBound(props, handles[..n], codes, readOnly);
      if handles[n] in props {
        EntriesForBound(handles[n], props[handles[n]], codes, readOnly);
      }
    }
  }

  lemma {:induction false} OfFormatBound(props: map<nat, L.Obj>, handles: seq<nat>, fmt: nat)
    ensures L.OfFormat(props, handles, fmt).Some? ==> |L.OfFormat(props, handles, fmt).value| <= |handles|
    decreases |handles|
  {
    if handles != [] {
      OfFormatBound(props, handles[1..], fmt);
    }
  }

  lemma {:induction false} SmallerSet(a: set<nat>, b: set<nat>)
    requires a <= b
    ensures |a| <= |b|
    decreases a
  {
    if x :| x in a {
      SmallerSet(a - {x}, b - {x});
    }
  }

  lemma ChosenBound(objects: map<nat, H.Obj>, props: map<nat, L.Obj>, handle: nat, depth: nat)
    requires Mirrors(objects, props)
    ensures |Chosen(objects, handle, depth)| <= |props| + 1
  {
    hide Descends;
    SmallerSet(Chosen(objects, handle, depth), props.Keys + {handle});
    if handle in props {
      assert props.Keys + {handle} == props.Keys;
    }
  }

  lemma SameMembers(r: seq<nat>, s: set<nat>)
    requires multiset(r) == multiset(s)
    ensures |r| == |s| && forall h :: h in r <==> h in s
  {
    assert |multiset(r)| == |r| && |multiset(s)| == |s|;
    forall h
      ensures h in r <==> h in s
    {
      assert h in r <==> h in multiset(r);
      assert h in s <==> h in multiset(s);
    }
  }

  lemma ExpectedIsAnswer(objects: map<nat, H.Obj>, props: map<nat, L.Obj>, handles: seq<nat>, handle: nat, depth: nat,
                         fmt: nat, codes: seq<nat>, readOnly: bool)
    requires L.OfFormat(props, handles, fmt).Some?
    requires forall h :: h in handles <==> h in Chosen(objects, handle, depth)
    ensures L.Expected(props, L.OfFormat(props, handles, fmt).value, codes, readOnly)
         == Answer(objects, props, handle, depth, fmt, codes, readOnly)
  {
    hide Chosen, L.PropsOf;
    if fmt != 0 {
      L.OfFormatSelects(props, handles, fmt);
      hide L.OfFormat;
      EqualTables(objects, props, L.OfFormat(props, handles, fmt).value, handle, depth, fmt, codes, readOnly);
    } else {
      EqualTables(objects, props, handles, handle, depth, fmt, codes, readOnly);
    }
  }

  lemma EqualTables(objects: map<nat, H.Obj>, props: map<nat, L.Obj>, selected: seq<nat>, handle: nat, depth: nat,
                    fmt: nat, codes: seq<nat>, readOnly: bool)
    requires forall h :: h in selected && h in props <==>
               h in Chosen(objects, handle, depth) && h in props && (fmt == 0 || props[h].fmt == fmt)
    ensures L.Expected(props, selected, codes, readOnly) == Answer(objects, props, handle, depth, fmt, codes, readOnly)
  {
    hide Chosen, L.PropsOf;
  }

  /**
   * GetObjectPropList from request to parsed answer: the device raises exactly when a format is asked of a single
   * object there is none of, and otherwise the host's table holds the supported properties of exactly the objects
   * the request chooses.
   */
  method ServePropList(storage: MtpStorage, props: map<nat, L.Obj>, handle: nat, fmt: nat, propcode: nat, depth: nat,
                       readOnly: bool)
      returns (data: Option<bytes>)
    requires storage.Valid() && Mirrors(storage.objects, props)
    requires forall h :: h in props ==> h <= L.ALL && L.Plain(props[h])
    requires 9 * (|props| + 1) < 0x1_0000_0000
    ensures data.None? <==> fmt != 0 && handle != L.ALL && handle != 0 && handle !in props
    ensures data.Some? ==>
              L.ParsePropList(data.value)
              == Some(Answer(storage.objects, props, handle, depth, fmt, L.Codes(propcode), readOnly))
  {
    hide L.ParsePropList, L.PropListBytes, L.OfFormat, Answer, L.Plain, Chosen, Mirrors, L.Codes;
    var handles := SelectHandles(storage, props, handle, depth);
    ghost var objects := storage.objects;
    Parsed(objects, props, handles, handle, fmt, propcode, depth, readOnly);
    data := L.ObjectPropList(props, handles, fmt, propcode, readOnly);
  }

  /** The same about the bytes, for the handles so chosen. */
  lemma Parsed(objects: map<nat, H.Obj>, props: map<nat, L.Obj>, handles: seq<nat>, handle: nat, fmt: nat,
               propcode: nat, depth: nat, readOnly: bool)
    requires Mirrors(objects, props) && multiset(handles) == multiset(Chosen(objects, handle, depth))
    requires forall h :: h in props ==> h <= L.ALL && L.Plain(props[h])
    requires 9 * (|props| + 1) < 0x1_0000_0000
    ensures var f := L.OfFormat(props, handles, fmt);
            && (f.None? <==> fmt != 0 && handle != L.ALL && handle != 0 && handle !in props)
            && (f.Some? ==> L.ParsePropList(L.PropListBytes(props, f.value, L.Codes(propcode), readOnly))
                            == Some(Answer(objects, props, handle, depth, fmt, L.Codes(propcode), readOnly)))
  {
    hide L.ParsePropList, L.PropListBytes, L.Expected, L.AllEntries, L.OfFormat, Answer, L.Plain, Descends;
    SameMembers(handles, Chosen(objects, handle, depth));
    ChosenBound(objects, props, handle, depth);
    KnownHandles(props, handles, fmt);
    ChosenAreKnown(objects, props, handle, depth);
    var f, codes := L.OfFormat(props, handles, fmt), L.Codes(propcode);
    if f.Some? {
      OfFormatBound(props, handles, fmt);
      AllEntriesBound(props, f.value, codes, readOnly);
      L.PropListRoundTrip(props, f.value, codes, readOnly);
      ExpectedIsAnswer(objects, props, handles, handle, depth, fmt, codes, readOnly);
    }
  }

  lemma ChosenAreKnown(objects: map<nat, H.Obj>, props: map<nat, L.Obj>, handle: nat, depth: nat)
    requires Mirrors(objects, props)
    ensures (forall h :: h in Chosen(objects, handle, depth) ==> h in props)
       <==> handle == L.ALL || handle == 0 || handle in props
  {
    hide Descends;
    if handle != L.ALL && handle != 0 {
      assert handle in Chosen(objects, handle, depth);
    }
  }

  lemma KnownHandles(props: map<nat, L.Obj>, handles: seq<nat>, fmt: nat)
    ensures L.OfFormat(props, handles, fmt).Some? <==> fmt == 0 || forall h :: h in handles ==> h in props
  {
    if fmt != 0 {
      L.OfFormatSelects(props, handles, fmt);
    }
  }
}
