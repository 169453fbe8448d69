/**
 Profile shares: who a contact is by its own account. The share with the greatest edit time wins,
 whole; the avatar it carries may also say "unchanged", and that makes the avatar, unlike the name,
 depend on the order of delivery. When exactly it does is `AvatarConvergesExactly`.
 */
module ProfileShares {
  import opened Outcomes
  import opened ByteStrings

  datatype AvatarRef = AvatarRef(mediaId: string, mediaUrl: string, mediaKey: Bytes, mimeType: string)

  /** The oneof of the message, as sent. */
  datatype AvatarField = AvatarSet(ref: AvatarRef) | AvatarRemoved | AvatarAbsent

  /** How a receiver reads it. */
  datatype Avatar = Set(ref: AvatarRef) | Removed | Unchanged

  datatype Share = Share(name: string, editedAt: nat, avatar: Avatar)

  /** A set avatar whose key is not 32 bytes reads as unchanged. */
  function ReadAvatar(field: AvatarField): Avatar {
    match field
    case AvatarSet(ref) => if |ref.mediaKey| == 32 then Set(ref) else Unchanged
    case AvatarRemoved => Removed
    case AvatarAbsent => Unchanged
  }

  datatype AvatarAction = Download | Clear | Keep

  /** "ignore", or "apply" with what happens to the avatar held. */
  datatype Answer = Ignore | Apply(action: AvatarAction)

  function Answered(heldEditedAt: Option<nat>, s: Share): Answer {
    if heldEditedAt.Some? && s.editedAt <= heldEditedAt.value then Ignore
    else Apply(match s.avatar case Set(_) => Download case Removed => Clear case Unchanged => Keep)
  }

  /** The shared vectors: what is applied, and that a set avatar with a short key is unchanged. */
  lemma Vectors(ref: AvatarRef, name: string)
    requires |ref.mediaKey| == 32
    ensures Answered(None, Share(name, 10, Unchanged)) == Apply(Keep)
    ensures Answered(Some(10), Share(name, 11, Set(ref))) == Apply(Download)
    ensures Answered(Some(11), Share(name, 11, Set(ref))) == Ignore
    ensures Answered(Some(11), Share(name, 9, Removed)) == Ignore
    ensures Answered(Some(11), Share(name, 12, Removed)) == Apply(Clear)
    ensures Answered(Some(12), Share(name, 13, Unchanged)) == Apply(Keep)
    ensures ReadAvatar(AvatarSet(ref)) == Set(ref) && ReadAvatar(AvatarRemoved) == Removed
    ensures ReadAvatar(AvatarAbsent) == Unchanged
    ensures ReadAvatar(AvatarSet(ref.(mediaKey := ref.mediaKey[..16]))) == Unchanged
  {
  }

  /** What a receiver holds of a sender: the edit time last applied, and name and avatar. */
  datatype Held = Held(editedAt: Option<nat>, name: string, avatar: Option<AvatarRef>)

  const NOTHING := Held(None, "", None)

  function AvatarAfter(s: Share, held: Option<AvatarRef>): Option<AvatarRef> {
    match s.avatar
    case Set(ref) => Some(ref)
    case Removed => None
    case Unchanged => held
  }

  function Receive(h: Held, s: Share): Held {
    match Answered(h.editedAt, s)
    case Ignore => h
    case Apply(action) =>
      Held(Some(s.editedAt), s.name,
           match action
           case Download => Some(s.avatar.ref)
           case Clear => None
           case Keep => h.avatar)
  }

  function After(h: Held, ss: seq<Share>): Held {
    if ss == [] then h else Receive(After(h, ss[..|ss| - 1]), ss[|ss| - 1])
  }

  predicate Newer(s: Share, h: Held) {
    h.editedAt.None? || s.editedAt > h.editedAt.value
  }

  // ---- The edit time ----

  ghost predicate IsMaximum(t: Option<nat>, h: Held, ss: seq<Share>) {
    && (t == h.editedAt || (t.Some? && exists s | s in ss :: s.editedAt == t.value))
    && (h.editedAt.Some? ==> t.Some? && t.value >= h.editedAt.value)
    && (forall s | s in ss :: t.Some? && s.editedAt <= t.value)
  }

  /** The held edit time is the maximum delivered, and redelivering anything delivered changes nothing. */
  lemma {:induction false} TimeIsMaximum(h: Held, ss: seq<Share>)
    ensures IsMaximum(After(h, ss).editedAt, h, ss)
    ensures forall s | s in ss :: Receive(After(h, ss), s) == After(h, ss)
    decreases |ss|
  {
    if ss != [] {
      var front, last := ss[..|ss| - 1], ss[|ss| - 1];
      TimeIsMaximum(h, front);
      assert ss == front + [last];
      assert last in ss && forall s | s in front :: s in ss;
    }
  }

  // ---- What is held is decided by the strict left-to-right maxima ----

  /** The shares that are newer than everything held or delivered before them. */
  function Records(h: Held, ss: seq<Share>): seq<Share> {
    if ss == [] then []
    else
      var front, last := ss[..|ss| - 1], ss[|ss| - 1];
      Records(h, front) + if Newer(last, After(h, front)) then [last] else []
  }

  function FoldAvatar(held: Option<AvatarRef>, ss: seq<Share>): Option<AvatarRef> {
    if ss == [] then held else AvatarAfter(ss[|ss| - 1], FoldAvatar(held, ss[..|ss| - 1]))
  }

  /** Strictly left-to-right maximal: newer than what was held and than every earlier delivery. */
  ghost predicate IsRecord(h: Held, ss: seq<Share>, k: nat)
    requires k < |ss|
  {
    Newer(ss[k], h) && forall j | 0 <= j < k :: ss[j].editedAt < ss[k].editedAt
  }

  lemma RecordsAreMaxima(h: Held, ss: seq<Share>, k: nat)
    requires k < |ss|
    ensures Newer(ss[k], After(h, ss[..k])) <==> IsRecord(h, ss, k)
  {
    TimeIsMaximum(h, ss[..k]);
    assert forall j | 0 <= j < k :: ss[j] == ss[..k][j] && ss[j] in ss[..k];
    var t := After(h, ss[..k]).editedAt;
    if IsRecord(h, ss, k) && t != h.editedAt {
      var s :| s in ss[..k] && s.editedAt == t.value;
      var j :| 0 <= j < k && ss[..k][j] == s;
    }
  }

  /** The avatar is the fold of the records alone, and the name is the last record's. */
  lemma {:induction false} HeldByRecords(h: Held, ss: seq<Share>)
    ensures var records := Records(h, ss);
            && After(h, ss).avatar == FoldAvatar(h.avatar, records)
            && After(h, ss).name == if records == [] then h.name else records[|records| - 1].name
    decreases |ss|
  {
    if ss != [] {
      var front, last := ss[..|ss| - 1], ss[|ss| - 1];
      HeldByRecords(h, front);
      if Newer(last, After(h, front)) {
        assert (Records(h, front) + [last])[..|Records(h, front)|] == Records(h, front);
      } else {
        assert Records(h, ss) == Records(h, front);
      }
    }
  }

  // ---- Order of delivery ----

  ghost function SetOf(ss: seq<Share>): set<Share> {
    set s | s in ss
  }

  /** Equal edit times mean equal profiles: a sender does not edit twice in one millisecond. */
  ghost predicate OneProfilePerTime(all: set<Share>) {
    forall s, t | s in all && t in all && s.editedAt == t.editedAt :: s == t
  }

  /** `m` is newer than what is held and no share of the set is newer than `m`. */
  ghost predicate IsNewest(m: Share, h: Held, all: set<Share>) {
    m in all && Newer(m, h) && forall s | s in all :: s.editedAt <= m.editedAt
  }

  lemma {:induction false} NothingNewer(h: Held, ss: seq<Share>)
    requires forall s | s in ss :: !Newer(s, h)
    ensures After(h, ss) == h
    decreases |ss|
  {
    if ss != [] {
      assert forall s | s in ss[..|ss| - 1] :: s in ss;
      NothingNewer(h, ss[..|ss| - 1]);
      assert ss[|ss| - 1] in ss;
    }
  }

  lemma {:induction false} AfterAppend(h: Held, ss: seq<Share>, ts: seq<Share>)
    ensures After(h, ss + ts) == After(After(h, ss), ts)
    decreases |ts|
  {
    if ts == [] {
      assert ss + ts == ss;
    } else {
      assert (ss + ts)[..|ss + ts| - 1] == ss + ts[..|ts| - 1];
      AfterAppend(h, ss, ts[..|ts| - 1]);
    }
  }

  /** Once the newest share is applied, the rest of a delivery changes nothing. */
  lemma RestIgnored(h: Held, first: seq<Share>, rest: seq<Share>, m: Share)
    requires After(h, first).editedAt == Some(m.editedAt)
    requires forall s | s in rest :: s.editedAt <= m.editedAt
    ensures After(h, first + rest) == After(h, first)
  {
    AfterAppend(h, first, rest);
    NothingNewer(After(h, first), rest);
  }

  lemma AfterTwo(h: Held, a: Share, b: Share)
    ensures After(h, [a]) == Receive(h, a)
    ensures After(h, [a, b]) == Receive(Receive(h, a), b)
  {
    assert [a][..0] == [];
    assert [a, b][..1] == [a];
  }

  /** If anything newer is delivered, the first of the newest shares decides the time and the name. */
  lemma {:induction false} FirstNewest(h: Held, ss: seq<Share>) returns (m: Share)
    requires exists s | s in ss :: Newer(s, h)
    ensures IsNewest(m, h, SetOf(ss))
    ensures After(h, ss).editedAt == Some(m.editedAt) && After(h, ss).name == m.name
    ensures !m.avatar.Unchanged? ==> After(h, ss).avatar == AvatarAfter(m, None)
    decreases |ss|
  {
    var front, last := ss[..|ss| - 1], ss[|ss| - 1];
    assert ss == front + [last];
    TimeIsMaximum(h, front);
    if Newer(last, After(h, front)) {
      m := last;
    } else {
      if forall s | s in front :: !Newer(s, h) {
        NothingNewer(h, front);
      }
      m := FirstNewest(h, front);
    }
  }

  /** Delivered first, one of the newest shares decides everything. */
  lemma NewestFirst(h: Held, ss: seq<Share>, m: Share)
    requires IsNewest(m, h, SetOf(ss))
    ensures SetOf([m] + ss) == SetOf(ss)
    ensures After(h, [m] + ss) == Receive(h, m)
  {
    AfterTwo(h, m, m);
    assert forall s | s in ss :: s in SetOf(ss);
    RestIgnored(h, [m], ss, m);
  }

  /** The same shares leave the same edit time, whatever their order and repetition. */
  lemma TimeConverges(h: Held, ss: seq<Share>, ts: seq<Share>)
    requires SetOf(ss) == SetOf(ts)
    ensures After(h, ss).editedAt == After(h, ts).editedAt
  {
    assert forall s :: s in ss <==> s in SetOf(ss);
    assert forall s :: s in ts <==> s in SetOf(ts);
    if exists s | s in ss :: Newer(s, h) {
      var m := FirstNewest(h, ss);
      var n := FirstNewest(h, ts);
    } else {
      NothingNewer(h, ss);
      NothingNewer(h, ts);
    }
  }

  /** Every order and repetition of these shares leaves the same name. */
  ghost predicate NameConverges(h: Held, all: set<Share>) {
    forall ss, ts | SetOf(ss) == all && SetOf(ts) == all :: After(h, ss).name == After(h, ts).name
  }

  /** The newest shares, if anything is newer than what is held, carry one name. */
  ghost predicate NameDecided(h: Held, all: set<Share>) {
    forall m, n | IsNewest(m, h, all) && IsNewest(n, h, all) :: m.name == n.name
  }

  lemma SameName(h: Held, ss: seq<Share>, ts: seq<Share>)
    requires SetOf(ss) == SetOf(ts) && NameDecided(h, SetOf(ss))
    ensures After(h, ss).name == After(h, ts).name
  {
    assert forall s :: s in ss <==> s in SetOf(ss);
    assert forall s :: s in ts <==> s in SetOf(ts);
    if exists s | s in ss :: Newer(s, h) {
      var m := FirstNewest(h, ss);
      var n := FirstNewest(h, ts);
    } else {
      NothingNewer(h, ss);
      NothingNewer(h, ts);
    }
  }

  /** The name is independent of the order of delivery if and only if the newest shares carry one name. */
  lemma NameConvergesExactly(h: Held, ss: seq<Share>)
    ensures NameConverges(h, SetOf(ss)) <==> NameDecided(h, SetOf(ss))
  {
    var all := SetOf(ss);
    if NameDecided(h, all) {
      forall ts, us | SetOf(ts) == all && SetOf(us) == all
        ensures After(h, ts).name == After(h, us).name
      {
        SameName(h, ts, us);
      }
    } else {
      var m, n :| IsNewest(m, h, all) && IsNewest(n, h, all) && m.name != n.name;
      NewestFirst(h, ss, m);
      NewestFirst(h, ss, n);
      NamesDiffer(h, all, [m] + ss, [n] + ss);
    }
  }

  lemma NamesDiffer(h: Held, all: set<Share>, ss: seq<Share>, ts: seq<Share>)
    requires SetOf(ss) == all && SetOf(ts) == all && After(h, ss).name != After(h, ts).name
    ensures !NameConverges(h, all)
  {
  }

  /** A sender that does not edit twice in one millisecond has its name converge. */
  lemma OneProfileDecidesName(h: Held, all: set<Share>)
    requires OneProfilePerTime(all)
    ensures NameDecided(h, all)
  {
  }

  /** Every order and repetition of these shares leaves the same avatar. */
  ghost predicate AvatarConverges(h: Held, all: set<Share>) {
    forall ss, ts | SetOf(ss) == all && SetOf(ts) == all :: After(h, ss).avatar == After(h, ts).avatar
  }

  /**
   What decides it: the newest shares all say the same about the avatar, none of them "unchanged", or no
   newer share would change the avatar held.
   */
  ghost predicate AvatarDecided(h: Held, all: set<Share>) {
    || (&& (forall m | IsNewest(m, h, all) :: !m.avatar.Unchanged?)
        && (forall m, n | IsNewest(m, h, all) && IsNewest(n, h, all) :: AvatarAfter(m, None) == AvatarAfter(n, None)))
    || (forall s | s in all && Newer(s, h) :: AvatarAfter(s, h.avatar) == h.avatar)
  }

  lemma {:induction false} AvatarUntouched(h: Held, ss: seq<Share>)
    requires forall s | s in ss && Newer(s, h) :: AvatarAfter(s, h.avatar) == h.avatar
    ensures After(h, ss).avatar == h.avatar
    decreases |ss|
  {
    if ss != [] {
      var front, last := ss[..|ss| - 1], ss[|ss| - 1];
      assert last in ss && forall s | s in front :: s in ss;
      AvatarUntouched(h, front);
      TimeIsMaximum(h, front);
    }
  }

  /** An older share that changes the avatar, then a newest one that leaves it alone. */
  lemma OlderThenNewest(h: Held, ss: seq<Share>, x: Share, m: Share)
    requires IsNewest(m, h, SetOf(ss)) && m.avatar.Unchanged?
    requires x in ss && Newer(x, h) && x.editedAt < m.editedAt
    ensures SetOf([x, m] + ss) == SetOf(ss)
    ensures After(h, [x, m] + ss).avatar == AvatarAfter(x, h.avatar)
  {
    assert forall s | s in ss :: s in SetOf(ss);
    AfterTwo(h, x, m);
    RestIgnored(h, [x, m], ss, m);
  }

  lemma AvatarsDiffer(h: Held, all: set<Share>, ss: seq<Share>, ts: seq<Share>)
    requires SetOf(ss) == all && SetOf(ts) == all && After(h, ss).avatar != After(h, ts).avatar
    ensures !AvatarConverges(h, all)
  {
  }

  /** A newest share says "unchanged" and some newer share would change the avatar. */
  lemma UnchangedDiverges(h: Held, ss: seq<Share>, m: Share, x: Share)
    requires IsNewest(m, h, SetOf(ss)) && m.avatar.Unchanged?
    requires x in ss && Newer(x, h) && AvatarAfter(x, h.avatar) != h.avatar
    ensures !AvatarConverges(h, SetOf(ss))
  {
    NewestFirst(h, ss, m);
    assert x in SetOf(ss);
    if x.editedAt < m.editedAt {
      OlderThenNewest(h, ss, x, m);
      AvatarsDiffer(h, SetOf(ss), [m] + ss, [x, m] + ss);
    } else {
      assert IsNewest(x, h, SetOf(ss));
      NewestFirst(h, ss, x);
      AvatarsDiffer(h, SetOf(ss), [m] + ss, [x] + ss);
    }
  }

  /** Two newest shares set or remove the avatar differently. */
  lemma NewestDiverge(h: Held, ss: seq<Share>, m: Share, n: Share)
    requires IsNewest(m, h, SetOf(ss)) && IsNewest(n, h, SetOf(ss))
    requires !m.avatar.Unchanged? && !n.avatar.Unchanged? && AvatarAfter(m, None) != AvatarAfter(n, None)
    ensures !AvatarConverges(h, SetOf(ss))
  {
    NewestFirst(h, ss, m);
    NewestFirst(h, ss, n);
    AvatarsDiffer(h, SetOf(ss), [m] + ss, [n] + ss);
  }

  lemma UndecidedDiverges(h: Held, ss: seq<Share>)
    requires !AvatarDecided(h, SetOf(ss))
    ensures !AvatarConverges(h, SetOf(ss))
  {
    var all := SetOf(ss);
    var x :| x in all && Newer(x, h) && AvatarAfter(x, h.avatar) != h.avatar;
    if m :| IsNewest(m, h, all) && m.avatar.Unchanged? {
      UnchangedDiverges(h, ss, m, x);
    } else {
      var m, n :| IsNewest(m, h, all) && IsNewest(n, h, all) && AvatarAfter(m, None) != AvatarAfter(n, None);
      NewestDiverge(h, ss, m, n);
    }
  }

  lemma DecidedAgree(h: Held, ts: seq<Share>, us: seq<Share>)
    requires SetOf(ts) == SetOf(us) && AvatarDecided(h, SetOf(ts))
    ensures After(h, ts).avatar == After(h, us).avatar
  {
    assert forall s :: s in ts <==> s in SetOf(ts);
    assert forall s :: s in us <==> s in SetOf(us);
    if forall s | s in SetOf(ts) && Newer(s, h) :: AvatarAfter(s, h.avatar) == h.avatar {
      AvatarUntouched(h, ts);
      AvatarUntouched(h, us);
    } else {
      var m := FirstNewest(h, ts);
      var n := FirstNewest(h, us);
    }
  }

  /**
   The avatar is independent of the order of delivery if and only if the newest shares agree in setting
   or removing it, or no share newer than what is held would change the avatar held.
   */
  lemma AvatarConvergesExactly(h: Held, ss: seq<Share>)
    ensures AvatarConverges(h, SetOf(ss)) <==> AvatarDecided(h, SetOf(ss))
  {
    var all := SetOf(ss);
    if AvatarDecided(h, all) {
      forall ts, us | SetOf(ts) == all && SetOf(us) == all
        ensures After(h, ts).avatar == After(h, us).avatar
      {
        DecidedAgree(h, ts, us);
      }
    } else {
      UndecidedDiverges(h, ss);
    }
  }

  /** An input that shows the order matters: a set avatar, then an edit that left the avatar alone. */
  lemma AvatarDependsOnOrder(ref: AvatarRef)
    ensures var set10, edit11 := Share("Alice", 10, Set(ref)), Share("Alicia", 11, Unchanged);
            && After(NOTHING, [set10, edit11]).avatar == Some(ref)
            && After(NOTHING, [edit11, set10]).avatar == None
  {
    var a, b := Share("Alice", 10, Set(ref)), Share("Alicia", 11, Unchanged);
    AfterTwo(NOTHING, a, b);
    AfterTwo(NOTHING, b, a);
  }

  /** What a receiver holds after one share: a newer one replaces time and name and acts on the avatar. */
  lemma ReceiveExactly(h: Held, s: Share)
    ensures h.editedAt == None || (h.editedAt.Some? && s.editedAt > h.editedAt.value) ==>
              && Receive(h, s).editedAt == Some(s.editedAt) && Receive(h, s).name == s.name
              && (s.avatar.Set? ==> Receive(h, s).avatar == Some(s.avatar.ref))
              && (s.avatar.Removed? ==> Receive(h, s).avatar == None)
              && (s.avatar.Unchanged? ==> Receive(h, s).avatar == h.avatar)
    ensures h.editedAt.Some? && s.editedAt <= h.editedAt.value ==> Receive(h, s) == h
  {
  }

  /** A set avatar is read as set exactly when its key has 32 bytes. */
  lemma SetExactly(field: AvatarField)
    ensures ReadAvatar(field).Set? <==> field.AvatarSet? && |field.ref.mediaKey| == 32
    ensures ReadAvatar(field).Set? ==> ReadAvatar(field).ref == field.ref
    ensures ReadAvatar(field) == Removed <==> field.AvatarRemoved?
  {
  }
}
