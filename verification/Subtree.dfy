/** The objects below an inode, by the names that lead to them: what a walk of a volume visits, refuses
    and files, said without the walker and its collections. */
module Subtree {
  import opened Bits
  import opened Outcomes
  import opened LogitFs
  import opened VolumeWalk

  // ------------------------------------------------------------------- names to inodes --

  /** The inode of the entry with that name. */
  ghost function EntryOf(es: seq<Entry>, name: seq<Byte>): (r: Option<nat>) {
    if es == [] then None else if es[0].name == name then Some(es[0].child) else EntryOf(es[1..], name)
  }

  /** The inode that a list of names leads to from ino. */
  ghost function Resolve(img: Image, ino: nat, parts: Parts): (r: Option<nat>)
    decreases |parts|, 1
  {
    if parts == [] then Some(ino)
    else match Directory(img, ino)
      case Raise => None
      case Return(es) => ResolveIn(img, es, parts)
  }

  ghost function ResolveIn(img: Image, es: seq<Entry>, parts: Parts): (r: Option<nat>)
    requires parts != []
    decreases |parts|, 0
  {
    match EntryOf(es, parts[0])
    case None => None
    case Some(c) => Resolve(img, c, parts[1..])
  }

  lemma FirstEntry(img: Image, es: seq<Entry>, parts: Parts)
    requires es != [] && parts != []
    ensures ResolveIn(img, es, parts)
            == if parts[0] == es[0].name then Resolve(img, es[0].child, parts[1..]) else ResolveIn(img, es[1..], parts)
  {
    hide Resolve;
  }

  lemma {:induction false} NoEntry(es: seq<Entry>, name: seq<Byte>)
    requires forall i :: 0 <= i < |es| ==> es[i].name != name
    ensures EntryOf(es, name) == None
  {
    if es != [] { NoEntry(es[1..], name); }
  }

  // ------------------------------------------------------------------ what can be visited --

  /** An inode a visitor can take: a readable directory, or a file, whose bytes must be readable too
      where they are wanted. */
  ghost predicate Takes(img: Image, ino: nat, bytes: bool) {
    && GetInode(img, ino).Return?
    && (if GetInode(img, ino).value.kind == 2 then Directory(img, ino).Return?
        else bytes ==> Payload(img, ino).Return?)
  }

  /** Every name list from ino leads to an inode that can be taken and is new, and no two lead to the
      same one. */
  ghost predicate Sound(img: Image, ino: nat, seen: set<nat>, bytes: bool) {
    && (forall p :: Resolve(img, ino, p).Some? ==>
          Takes(img, Resolve(img, ino, p).value, bytes) && Resolve(img, ino, p).value !in seen)
    && (forall p, q :: Resolve(img, ino, p).Some? && Resolve(img, ino, q).Some? && p != q ==>
          Resolve(img, ino, p).value != Resolve(img, ino, q).value)
  }

  ghost predicate SoundIn(img: Image, es: seq<Entry>, seen: set<nat>, bytes: bool) {
    && (forall p :: p != [] && ResolveIn(img, es, p).Some? ==>
          Takes(img, ResolveIn(img, es, p).value, bytes) && ResolveIn(img, es, p).value !in seen)
    && (forall p, q :: p != [] && q != [] && ResolveIn(img, es, p).Some? && ResolveIn(img, es, q).Some? && p != q ==>
          ResolveIn(img, es, p).value != ResolveIn(img, es, q).value)
  }

  /** seen and everything below ino. */
  ghost predicate Reached(img: Image, ino: nat, seen: set<nat>, after: set<nat>) {
    && seen <= after && (forall p :: Resolve(img, ino, p).Some? ==> Resolve(img, ino, p).value in after)
    && (forall n :: n in after && n !in seen ==> exists p :: Resolve(img, ino, p) == Some(n))
  }

  ghost predicate ReachedIn(img: Image, es: seq<Entry>, seen: set<nat>, after: set<nat>) {
    && seen <= after && (forall p :: p != [] && ResolveIn(img, es, p).Some? ==> ResolveIn(img, es, p).value in after)
    && (forall n :: n in after && n !in seen ==> exists p :: p != [] && ResolveIn(img, es, p) == Some(n))
  }

  /** The visit every walker makes: refuse a second meeting, then go through the entries. */
  ghost function Visit(img: Image, ino: nat, seen: set<nat>, bytes: bool): (r: Outcome<set<nat>>)
    ensures r.Return? ==> seen <= r.value
    decreases Unseen(img, seen), 0, 0
  {
    if ino in seen || !Takes(img, ino, bytes) then Raise
    else if GetInode(img, ino).value.kind != T_DIR then Return(seen + {ino})
    else
      UnseenDrops(img, seen, ino);
      VisitAll(img, Directory(img, ino).value, seen + {ino}, bytes)
  }

  ghost function VisitAll(img: Image, es: seq<Entry>, seen: set<nat>, bytes: bool): (r: Outcome<set<nat>>)
    ensures r.Return? ==> seen <= r.value
    decreases Unseen(img, seen), 1, |es|
  {
    if es == [] then Return(seen)
    else match Visit(img, es[0].child, seen, bytes)
      case Raise => Raise
      case Return(now) =>
        UnseenMono(img, seen, now);
        VisitAll(img, es[1..], now, bytes)
  }

  /** A visit succeeds exactly on a sound subtree, and then has met exactly its inodes. */
  lemma {:induction false} VisitExact(img: Image, ino: nat, seen: set<nat>, bytes: bool)
    ensures Visit(img, ino, seen, bytes).Return? <==> Sound(img, ino, seen, bytes)
    ensures Visit(img, ino, seen, bytes).Return? ==> Reached(img, ino, seen, Visit(img, ino, seen, bytes).value)
    decreases Unseen(img, seen), 0, 0
  {
    hide GetInode, Directory, Payload, Unseen, Sound, Reached, SoundIn, ReachedIn;
    if ino in seen || !Takes(img, ino, bytes) {
      RootUnsound(img, ino, seen, bytes);
    } else if GetInode(img, ino).value.kind != T_DIR {
      Leaf(img, ino, seen, bytes);
    } else {
      var es := Directory(img, ino).value;
      UnseenDrops(img, seen, ino);
      DirectoryOk(img, ino);
      VisitAllExact(img, es, seen + {ino}, bytes);
      Inner(img, ino, seen, bytes, VisitAll(img, es, seen + {ino}, bytes));
    }
  }

  lemma RootUnsound(img: Image, ino: nat, seen: set<nat>, bytes: bool)
    requires ino in seen || !Takes(img, ino, bytes)
    ensures !Sound(img, ino, seen, bytes)
  {
    hide Takes;
    assert Resolve(img, ino, []) == Some(ino);
  }

  lemma OnlySelf(img: Image, ino: nat, p: Parts)
    requires GetInode(img, ino).Return? && GetInode(img, ino).value.kind != T_DIR
    ensures Resolve(img, ino, p) == if p == [] then Some(ino) else None
  {}

  lemma Leaf(img: Image, ino: nat, seen: set<nat>, bytes: bool)
    requires Takes(img, ino, bytes) && ino !in seen && GetInode(img, ino).value.kind != T_DIR
    ensures Sound(img, ino, seen, bytes) && Reached(img, ino, seen, seen + {ino})
  {
    hide Takes, Resolve;
    forall p ensures Resolve(img, ino, p) == if p == [] then Some(ino) else None {
      TakesInode(img, ino, bytes);
      OnlySelf(img, ino, p);
    }
    assert Resolve(img, ino, []) == Some(ino);
  }

  lemma TakesInode(img: Image, ino: nat, bytes: bool)
    requires Takes(img, ino, bytes)
    ensures GetInode(img, ino).Return?
  {}

  /** A directory and what its entries lead to. */
  lemma Inner(img: Image, ino: nat, seen: set<nat>, bytes: bool, r: Outcome<set<nat>>)
    requires Takes(img, ino, bytes) && ino !in seen && Directory(img, ino).Return?
    requires r.Return? <==> SoundIn(img, Directory(img, ino).value, seen + {ino}, bytes)
    requires r.Return? ==> ReachedIn(img, Directory(img, ino).value, seen + {ino}, r.value)
    ensures r.Return? <==> Sound(img, ino, seen, bytes)
    ensures r.Return? ==> Reached(img, ino, seen, r.value)
  {
    hide Takes, Directory, ResolveIn;
    var es := Directory(img, ino).value;
    assert Resolve(img, ino, []) == Some(ino);
    assert forall p :: p != [] ==> Resolve(img, ino, p) == ResolveIn(img, es, p);
    if SoundIn(img, es, seen + {ino}, bytes) {
      SoundUp(img, ino, es, seen, bytes);
      ReachedUp(img, ino, es, seen, r.value);
    }
    if Sound(img, ino, seen, bytes) { SoundDown(img, ino, es, seen, bytes); }
  }

  lemma SoundUp(img: Image, ino: nat, es: seq<Entry>, seen: set<nat>, bytes: bool)
    requires Takes(img, ino, bytes) && ino !in seen && SoundIn(img, es, seen + {ino}, bytes)
    requires Resolve(img, ino, []) == Some(ino) && forall p :: p != [] ==> Resolve(img, ino, p) == ResolveIn(img, es, p)
    ensures Sound(img, ino, seen, bytes)
  {
    hide Takes, Resolve, ResolveIn;
  }

  lemma SoundDown(img: Image, ino: nat, es: seq<Entry>, seen: set<nat>, bytes: bool)
    requires Sound(img, ino, seen, bytes)
    requires Resolve(img, ino, []) == Some(ino) && forall p :: p != [] ==> Resolve(img, ino, p) == ResolveIn(img, es, p)
    ensures SoundIn(img, es, seen + {ino}, bytes)
  {
    hide Takes, Resolve, ResolveIn;
  }

  lemma ReachedUp(img: Image, ino: nat, es: seq<Entry>, seen: set<nat>, after: set<nat>)
    requires ReachedIn(img, es, seen + {ino}, after)
    requires Resolve(img, ino, []) == Some(ino) && forall p :: p != [] ==> Resolve(img, ino, p) == ResolveIn(img, es, p)
    ensures Reached(img, ino, seen, after)
  {
    hide Resolve, ResolveIn;
    forall n | n in after && n !in seen ensures exists p :: Resolve(img, ino, p) == Some(n) {
      if n != ino {
        var p :| p != [] && ResolveIn(img, es, p) == Some(n);
        assert Resolve(img, ino, p) == Some(n);
      }
    }
  }

  lemma {:induction false} VisitAllExact(img: Image, es: seq<Entry>, seen: set<nat>, bytes: bool)
    requires NamesDistinct(es)
    ensures VisitAll(img, es, seen, bytes).Return? <==> SoundIn(img, es, seen, bytes)
    ensures VisitAll(img, es, seen, bytes).Return? ==> ReachedIn(img, es, seen, VisitAll(img, es, seen, bytes).value)
    decreases Unseen(img, seen), 1, |es|
  {
    hide Unseen, Sound, Reached, SoundIn, ReachedIn, Visit, Takes, Resolve, ResolveIn;
    if es == [] {
      NothingIn(img, seen, bytes);
    } else {
      var first := Visit(img, es[0].child, seen, bytes);
      VisitExact(img, es[0].child, seen, bytes);
      Split(img, es);
      if first.Raise? {
        FirstUnsound(img, es, seen, bytes);
      } else {
        UnseenMono(img, seen, first.value);
        VisitAllExact(img, es[1..], first.value, bytes);
        Together(img, es, seen, first.value, bytes);
        var rest := VisitAll(img, es[1..], first.value, bytes);
        if rest.Return? { ReachedBoth(img, es, seen, first.value, rest.value); }
      }
    }
  }

  lemma NothingIn(img: Image, seen: set<nat>, bytes: bool)
    ensures SoundIn(img, [], seen, bytes) && ReachedIn(img, [], seen, seen)
  {}

  /** The first entry and the others, as the name lists see them. */
  ghost predicate Splits(img: Image, es: seq<Entry>)
    requires es != []
  {
    && (forall p :: Resolve(img, es[0].child, p) == ResolveIn(img, es, [es[0].name] + p))
    && (forall p :: p != [] && p[0] == es[0].name ==>
          ResolveIn(img, es, p) == Resolve(img, es[0].child, p[1..]) && ResolveIn(img, es[1..], p) == None)
    && (forall p :: p != [] && p[0] != es[0].name ==> ResolveIn(img, es, p) == ResolveIn(img, es[1..], p))
  }

  lemma Split(img: Image, es: seq<Entry>)
    requires es != [] && NamesDistinct(es)
    ensures Splits(img, es)
  {
    hide Resolve, ResolveIn;
    forall p ensures Resolve(img, es[0].child, p) == ResolveIn(img, es, [es[0].name] + p) {
      FirstEntry(img, es, [es[0].name] + p);
      assert ([es[0].name] + p)[1..] == p;
    }
    forall p: Parts | p != []
      ensures ResolveIn(img, es, p)
        == if p[0] == es[0].name then Resolve(img, es[0].child, p[1..]) else ResolveIn(img, es[1..], p)
      ensures p[0] == es[0].name ==> ResolveIn(img, es[1..], p) == None
    {
      FirstEntry(img, es, p);
      if p[0] == es[0].name { GoneIn(img, es, p); }
    }
  }

  lemma GoneIn(img: Image, es: seq<Entry>, p: Parts)
    requires es != [] && NamesDistinct(es) && p != [] && p[0] == es[0].name
    ensures ResolveIn(img, es[1..], p) == None
  {
    hide Resolve;
    assert forall i :: 0 <= i < |es[1..]| ==> es[1..][i] == es[i + 1];
    NoEntry(es[1..], p[0]);
  }

  lemma FirstUnsound(img: Image, es: seq<Entry>, seen: set<nat>, bytes: bool)
    requires es != [] && Splits(img, es) && !Sound(img, es[0].child, seen, bytes)
    ensures !SoundIn(img, es, seen, bytes)
  {
    hide Takes, Resolve, ResolveIn;
    if SoundIn(img, es, seen, bytes) { FirstSound(img, es, seen, bytes); }
  }

  lemma FirstSound(img: Image, es: seq<Entry>, seen: set<nat>, bytes: bool)
    requires es != [] && Splits(img, es) && SoundIn(img, es, seen, bytes)
    ensures Sound(img, es[0].child, seen, bytes)
  {
    hide Takes, Resolve, ResolveIn;
    var name, c := es[0].name, es[0].child;
    forall p | Resolve(img, c, p).Some?
      ensures Takes(img, Resolve(img, c, p).value, bytes) && Resolve(img, c, p).value !in seen
    {
      assert ResolveIn(img, es, [name] + p) == Resolve(img, c, p);
    }
    forall p, q | Resolve(img, c, p).Some? && Resolve(img, c, q).Some? && p != q
      ensures Resolve(img, c, p).value != Resolve(img, c, q).value
    {
      assert ([name] + p)[1..] == p && ([name] + q)[1..] == q;
      assert ResolveIn(img, es, [name] + p) == Resolve(img, c, p);
      assert ResolveIn(img, es, [name] + q) == Resolve(img, c, q);
    }
  }

  /** With the first entry's subtree taken, the rest is sound exactly when the whole is. */
  lemma Together(img: Image, es: seq<Entry>, seen: set<nat>, now: set<nat>, bytes: bool)
    requires es != [] && Splits(img, es) && Sound(img, es[0].child, seen, bytes) && Reached(img, es[0].child, seen, now)
    ensures SoundIn(img, es[1..], now, bytes) <==> SoundIn(img, es, seen, bytes)
  {
    hide Takes, Resolve, ResolveIn;
    if SoundIn(img, es[1..], now, bytes) { Joined(img, es, seen, now, bytes); }
    if SoundIn(img, es, seen, bytes) { Rest(img, es, seen, now, bytes); }
  }

  lemma Joined(img: Image, es: seq<Entry>, seen: set<nat>, now: set<nat>, bytes: bool)
    requires es != [] && Splits(img, es) && Sound(img, es[0].child, seen, bytes) && Reached(img, es[0].child, seen, now)
    requires SoundIn(img, es[1..], now, bytes)
    ensures SoundIn(img, es, seen, bytes)
  {
    hide Takes, Resolve, ResolveIn;
    forall p: Parts, q: Parts |
        p != [] && q != [] && ResolveIn(img, es, p).Some? && ResolveIn(img, es, q).Some? && p != q
      ensures ResolveIn(img, es, p).value != ResolveIn(img, es, q).value
    {
      if p[0] == q[0] == es[0].name { assert p == [p[0]] + p[1..] && q == [q[0]] + q[1..]; }
    }
  }

  lemma Rest(img: Image, es: seq<Entry>, seen: set<nat>, now: set<nat>, bytes: bool)
    requires es != [] && Splits(img, es) && Reached(img, es[0].child, seen, now) && SoundIn(img, es, seen, bytes)
    ensures SoundIn(img, es[1..], now, bytes)
  {
    hide Takes, Resolve, ResolveIn;
    var t := es[1..];
    forall p: Parts | p != [] && ResolveIn(img, t, p).Some?
      ensures Takes(img, ResolveIn(img, t, p).value, bytes) && ResolveIn(img, t, p).value !in now
    {
      var n := ResolveIn(img, t, p).value;
      assert p[0] != es[0].name && ResolveIn(img, es, p) == Some(n);
      assert forall q :: Resolve(img, es[0].child, q) == ResolveIn(img, es, [es[0].name] + q) != Some(n);
    }
    forall p: Parts, q: Parts | p != [] && q != [] && ResolveIn(img, t, p).Some? && ResolveIn(img, t, q).Some? && p != q
      ensures ResolveIn(img, t, p).value != ResolveIn(img, t, q).value
    {
      assert ResolveIn(img, es, p) == ResolveIn(img, t, p) && ResolveIn(img, es, q) == ResolveIn(img, t, q);
    }
  }

  lemma ReachedBoth(img: Image, es: seq<Entry>, seen: set<nat>, now: set<nat>, after: set<nat>)
    requires es != [] && Splits(img, es) && Reached(img, es[0].child, seen, now) && ReachedIn(img, es[1..], now, after)
    ensures ReachedIn(img, es, seen, after)
  {
    hide Resolve, ResolveIn;
    forall n | n in after && n !in seen ensures exists p :: p != [] && ResolveIn(img, es, p) == Some(n) {
      if n in now {
        var q :| Resolve(img, es[0].child, q) == Some(n);
        assert ResolveIn(img, es, [es[0].name] + q) == Some(n);
      } else {
        var p :| p != [] && ResolveIn(img, es[1..], p) == Some(n);
        assert ResolveIn(img, es, p) == Some(n);
      }
    }
  }
}
