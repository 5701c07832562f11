/** tools/disk_profile.py copy_tree, exactly: which objects of the source are copied under which names,
    with which bytes and which preserved metadata, and which subtrees cannot be listed. */
module CopiedTree {
  import opened Bits
  import opened Outcomes
  import opened Bytes
  import opened LogitFs
  import opened VolumeWalk
  import opened ImageBuilder
  import opened Subtree
  import opened CopyTree
  import WalkedTree

  /** x is inode ino as it is copied: a file with its payload, a directory with no bytes of its own, and
      what the image holds of the inode's bytes 64 to 99. */
  ghost predicate IsCopy(img: Image, ino: nat, x: Item) {
    && GetInode(img, ino).Return? && x.kind == GetInode(img, ino).value.kind
    && (if x.kind == 2 then x.bytes == [] else Payload(img, ino) == Return(x.bytes))
    && x.meta.Some? && IsMeta(img, Sb(img, 7) * 4096 + ino * 128 + 64, x.meta.value)
  }

  /** The 36 bytes from off on, as far as the image goes. */
  ghost predicate IsMeta(img: Image, off: nat, s: seq<Byte>) {
    && |s| == (if |img| >= off + 36 then 36 else if |img| >= off then |img| - off else 0)
    && forall k :: 0 <= k < |s| ==> s[k] == img[off + k]
  }

  /** The length of a path is that of its names with a slash in front of each. */
  lemma {:induction false} PathLengthIs(parts: Parts)
    ensures PathLength(parts) == |WalkedTree.Slashed(parts)|
  {
    if parts != [] { PathLengthIs(parts[1..]); }
  }

  lemma MetaIs(img: Image, ino: nat)
    requires GetInode(img, ino).Return?
    ensures IsMeta(img, Sb(img, 7) * 4096 + ino * 128 + 64, Meta(GetInode(img, ino).value.raw))
  {
    hide Sb;
    var raw, off := Raw(img, ino), InodeOff(img, ino);
    assert raw == Cut(img, off, off + 128);
    assert forall i :: 0 <= i < |raw| ==> raw[i] == img[off + i];
  }

  lemma NodeIsCopy(img: Image, ino: nat)
    requires GetInode(img, ino).Return?
    ensures var node := GetInode(img, ino).value;
      && (node.kind == T_DIR ==> IsCopy(img, ino, Item(T_DIR, [], Some(Meta(node.raw)))))
      && (node.kind != T_DIR && Payload(img, ino).Return? ==>
            IsCopy(img, ino, Item(node.kind, Payload(img, ino).value, Some(Meta(node.raw)))))
  {
    hide GetInode, Payload, Sb, IsMeta;
    MetaIs(img, ino);
  }

  // ------------------------------------------------------------ what cannot be listed --

  lemma {:induction false} ListingVisits(img: Image, ino: nat, path: Parts, seen: set<nat>)
    ensures Listing(img, ino, path, seen).Return? <==> Visit(img, ino, seen, true).Return?
    ensures Listing(img, ino, path, seen).Return? ==>
      Listing(img, ino, path, seen).value.seen == Visit(img, ino, seen, true).value
    decreases Unseen(img, seen), 0, 0
  {
    hide GetInode, Directory, Payload, Unseen, Meta;
    if ino !in seen && Takes(img, ino, true) && GetInode(img, ino).value.kind == T_DIR {
      UnseenDrops(img, seen, ino);
      var own := One(path, Item(T_DIR, [], Some(Meta(GetInode(img, ino).value.raw))));
      ListAllVisits(img, Directory(img, ino).value, path, Found(own, seen + {ino}));
    }
  }

  lemma {:induction false} ListAllVisits(img: Image, es: seq<Entry>, path: Parts, acc: Found)
    ensures ListAll(img, es, path, acc).Return? <==> VisitAll(img, es, acc.seen, true).Return?
    ensures ListAll(img, es, path, acc).Return? ==>
      ListAll(img, es, path, acc).value.seen == VisitAll(img, es, acc.seen, true).value
    decreases Unseen(img, acc.seen), 1, |es|
  {
    hide Unseen, Listing, Visit;
    if es != [] {
      ListingVisits(img, es[0].child, path + [es[0].name], acc.seen);
      var first := Listing(img, es[0].child, path + [es[0].name], acc.seen);
      if first.Return? {
        UnseenMono(img, acc.seen, first.value.seen);
        ListAllVisits(img, es[1..], path, Found(OnTop(acc.items, first.value.items), first.value.seen));
      }
    }
  }

  // ---------------------------------------------------------------- what is listed --

  ghost predicate Holds(img: Image, items: Nodes, p: Parts, ino: nat) { p in items && IsCopy(img, ino, items[p]) }

  lemma {:induction false} ListingHolds(img: Image, ino: nat, path: Parts, seen: set<nat>, parts: Parts)
    requires Listing(img, ino, path, seen).Return? && Resolve(img, ino, parts).Some?
    ensures Holds(img, Listing(img, ino, path, seen).value.items, path + parts, Resolve(img, ino, parts).value)
    decreases Unseen(img, seen), 0, 0
  {
    hide GetInode, Directory, Payload, Unseen, Meta, IsCopy, ListAll, ResolveIn, NamesDistinct, FreshKids,
        ComponentName;
    NodeIsCopy(img, ino);
    var node := GetInode(img, ino).value;
    if node.kind == T_DIR {
      UnseenDrops(img, seen, ino);
      DirectoryOk(img, ino);
      var es, x := Directory(img, ino).value, Item(T_DIR, [], Some(Meta(node.raw)));
      OwnFresh(path, x, es);
      if parts == [] {
        ListAllKeeps(img, es, path, Found(One(path, x), seen + {ino}));
        assert path + parts == path && path in One(path, x);
      } else {
        ListAllHolds(img, es, path, Found(One(path, x), seen + {ino}), parts);
      }
    } else {
      OnlySelf(img, ino, parts);
      assert path + [] == path;
    }
  }

  lemma {:induction false} ListAllHolds(img: Image, es: seq<Entry>, path: Parts, acc: Found, parts: Parts)
    requires ListAll(img, es, path, acc).Return? && FreshKids(acc.items, path, es) && NamesDistinct(es)
    requires parts != [] && ResolveIn(img, es, parts).Some?
    ensures Holds(img, ListAll(img, es, path, acc).value.items, path + parts, ResolveIn(img, es, parts).value)
    decreases Unseen(img, acc.seen), 1, |es|
  {
    hide Unseen, FreshKids, NamesDistinct, Listing, Resolve, IsCopy;
    if es != [] {
      var child := path + [es[0].name];
      FirstEntry(img, es, parts);
      ListingBelow(img, es[0].child, child, acc.seen);
      var f := Listing(img, es[0].child, child, acc.seen).value;
      UnseenMono(img, acc.seen, f.seen);
      KidsNext(acc.items, f.items, path, es);
      var next := Found(OnTop(acc.items, f.items), f.seen);
      if parts[0] == es[0].name {
        ListingHolds(img, es[0].child, child, acc.seen, parts[1..]);
        assert child + parts[1..] == path + parts;
        ListAllKeeps(img, es[1..], path, next);
        assert path + parts in next.items;
      } else {
        ListAllHolds(img, es[1..], path, next, parts);
      }
    }
  }

  /** Some name list from ino leads to p below path. */
  ghost predicate Named(img: Image, ino: nat, path: Parts, p: Parts) {
    exists parts :: Resolve(img, ino, parts).Some? && p == path + parts
  }

  ghost predicate NamedIn(img: Image, es: seq<Entry>, path: Parts, p: Parts) {
    exists parts :: parts != [] && ResolveIn(img, es, parts).Some? && p == path + parts
  }

  lemma {:induction false} ListingNamed(img: Image, ino: nat, path: Parts, seen: set<nat>, p: Parts)
    requires Listing(img, ino, path, seen).Return? && p in Listing(img, ino, path, seen).value.items
    ensures Named(img, ino, path, p)
    decreases Unseen(img, seen), 0, 0
  {
    hide GetInode, Directory, Payload, Unseen, Meta, ListAll, ResolveIn, NamesDistinct, ComponentName;
    var node := GetInode(img, ino).value;
    assert path + [] == path && Resolve(img, ino, []) == Some(ino);
    if node.kind == T_DIR && p != path {
      UnseenDrops(img, seen, ino);
      DirectoryOk(img, ino);
      var es, x := Directory(img, ino).value, Item(T_DIR, [], Some(Meta(node.raw)));
      ListAllNamed(img, es, path, Found(One(path, x), seen + {ino}), p);
      var parts :| parts != [] && ResolveIn(img, es, parts).Some? && p == path + parts;
      assert Resolve(img, ino, parts).Some?;
    }
  }

  lemma {:induction false} ListAllNamed(img: Image, es: seq<Entry>, path: Parts, acc: Found, p: Parts)
    requires ListAll(img, es, path, acc).Return? && p in ListAll(img, es, path, acc).value.items && p !in acc.items
    requires NamesDistinct(es)
    ensures NamedIn(img, es, path, p)
    decreases Unseen(img, acc.seen), 1, |es|
  {
    hide Unseen, NamesDistinct, Listing, Resolve, ResolveIn;
    if es != [] {
      var child := path + [es[0].name];
      var f := Listing(img, es[0].child, child, acc.seen).value;
      UnseenMono(img, acc.seen, f.seen);
      Split(img, es);
      TailDistinct(es);
      if p in f.items {
        ListingNamed(img, es[0].child, child, acc.seen, p);
        var parts :| Resolve(img, es[0].child, parts).Some? && p == child + parts;
        assert ResolveIn(img, es, [es[0].name] + parts).Some? && p == path + ([es[0].name] + parts);
      } else {
        ListAllNamed(img, es[1..], path, Found(OnTop(acc.items, f.items), f.seen), p);
        var parts :| parts != [] && ResolveIn(img, es[1..], parts).Some? && p == path + parts;
        assert ResolveIn(img, es, parts).Some?;
      }
    }
  }

  lemma TailDistinct(es: seq<Entry>)
    requires es != [] && NamesDistinct(es)
    ensures NamesDistinct(es[1..])
  {}

  /** A subtree can be listed exactly when every name list from its root leads to a readable object that
      is new and no two lead to the same one. The listing then holds exactly what those lists name, each
      object with its kind, its bytes and its metadata. */
  lemma ListingExact(img: Image, ino: nat, path: Parts, seen: set<nat>)
    ensures Listing(img, ino, path, seen).Return? <==> Sound(img, ino, seen, true)
    ensures Listing(img, ino, path, seen).Return? ==> forall parts :: Resolve(img, ino, parts).Some? ==>
      && path + parts in Listing(img, ino, path, seen).value.items
      && IsCopy(img, Resolve(img, ino, parts).value, Listing(img, ino, path, seen).value.items[path + parts])
    ensures Listing(img, ino, path, seen).Return? ==>
      forall p :: p in Listing(img, ino, path, seen).value.items ==> Named(img, ino, path, p)
  {
    hide Listing, Sound, Resolve, IsCopy, Named, Reached, Visit;
    ListingVisits(img, ino, path, seen);
    VisitExact(img, ino, seen, true);
    if Listing(img, ino, path, seen).Return? {
      forall parts | Resolve(img, ino, parts).Some?
        ensures Holds(img, Listing(img, ino, path, seen).value.items, path + parts, Resolve(img, ino, parts).value)
      {
        ListingHolds(img, ino, path, seen, parts);
      }
      forall p | p in Listing(img, ino, path, seen).value.items ensures Named(img, ino, path, p) {
        ListingNamed(img, ino, path, seen, p);
      }
    }
  }
}
