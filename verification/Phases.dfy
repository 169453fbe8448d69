/**
 Which record types a snapshot of each phase may hold. A phase-3 file is a phase-1 transfer and a
 phase-2 transfer under one manifest, in any interleaving.
 */
module Phases {
  import opened Outcomes
  import opened ByteStrings
  import opened Cth1

  const MANIFEST: Byte := 0x01
  const MESSAGE: Byte := 0x04
  const REACTION: Byte := 0x05
  const MEDIA_TYPES: set<Byte> := {0x08}
  const TRANSCRIPT_TYPES: set<Byte> := {0x02, 0x03, 0x04, 0x05, 0x06, 0x07}

  datatype Reason =
    | ManifestNotFirst
    | MediaInPhase1
    | TranscriptInPhase2
    | NonMediaInPhase2
    | Phase0
    | UnknownPhase(phase: int)
    | ReactionBeforeMessage

  /** The types that are in `marked` (or, with `inside` false, those that are not), in order. */
  function Keep(types: seq<Byte>, marked: set<Byte>, inside: bool): seq<Byte> {
    if types == [] then []
    else if (types[0] in marked) == inside then [types[0]] + Keep(types[1..], marked, inside)
    else Keep(types[1..], marked, inside)
  }

  function WithoutEnd(types: seq<Byte>): seq<Byte> {
    Keep(types, {RT_END}, false)
  }

  function MediaPart(types: seq<Byte>): seq<Byte> {
    Keep(types, MEDIA_TYPES, true)
  }

  function NonMediaPart(types: seq<Byte>): seq<Byte> {
    Keep(types, MEDIA_TYPES, false)
  }

  predicate AnyIn(types: seq<Byte>, marked: set<Byte>) {
    exists t | t in types :: t in marked
  }

  predicate AnyNotIn(types: seq<Byte>, marked: set<Byte>) {
    exists t | t in types :: t !in marked
  }

  /** Some reaction stands before every message. */
  ghost predicate OrphanReaction(rest: seq<Byte>) {
    exists i | 0 <= i < |rest| :: rest[i] == REACTION && MESSAGE !in rest[..i]
  }

  /** The rule of a phase on the types after the manifest. */
  ghost function RestReason(phase: int, rest: seq<Byte>): Option<Reason> {
    if phase == 1 && AnyIn(rest, MEDIA_TYPES) then Some(MediaInPhase1)
    else if phase == 2 && AnyIn(rest, TRANSCRIPT_TYPES) then Some(TranscriptInPhase2)
    else if phase == 2 && AnyNotIn(rest, MEDIA_TYPES) then Some(NonMediaInPhase2)
    else if phase == 0 then Some(Phase0)
    else if phase !in {0, 1, 2, 3} then Some(UnknownPhase(phase))
    else if OrphanReaction(rest) then Some(ReactionBeforeMessage)
    else None
  }

  ghost function PhaseReason(phase: int, types: seq<Byte>): Option<Reason> {
    var body := WithoutEnd(types);
    if body == [] || body[0] != MANIFEST then Some(ManifestNotFirst) else RestReason(phase, body[1..])
  }

  ghost predicate Legal(phase: int, types: seq<Byte>) {
    PhaseReason(phase, types) == None
  }

  method PhaseOk(phase: int, types: seq<Byte>) returns (r: Option<Reason>)
    ensures r == PhaseReason(phase, types)
  {
    var body := WithoutEnd(types);
    if body == [] || body[0] != MANIFEST {
      return Some(ManifestNotFirst);
    }
    var rest := body[1..];
    if phase == 1 {
      if AnyIn(rest, MEDIA_TYPES) {
        return Some(MediaInPhase1);
      }
    } else if phase == 2 {
      if AnyIn(rest, TRANSCRIPT_TYPES) {
        return Some(TranscriptInPhase2);
      }
      if AnyNotIn(rest, MEDIA_TYPES) {
        return Some(NonMediaInPhase2);
      }
    } else if phase == 3 {
    } else if phase == 0 {
      return Some(Phase0);
    } else {
      return Some(UnknownPhase(phase));
    }
    var seenMessage := false;
    for i := 0 to |rest|
      invariant seenMessage == (MESSAGE in rest[..i])
      invariant forall k | 0 <= k < i :: !(rest[k] == REACTION && MESSAGE !in rest[..k])
    {
      var t := rest[i];
      assert rest[..i + 1] == rest[..i] + [t];
      if t == MESSAGE {
        seenMessage := true;
      }
      if t == REACTION && !seenMessage {
        return Some(ReactionBeforeMessage);
      }
    }
    return None;
  }

  // ---- Splitting and joining phases ----

  lemma {:induction false} KeepMembers(types: seq<Byte>, marked: set<Byte>, inside: bool)
    ensures forall t :: t in Keep(types, marked, inside) <==> t in types && (t in marked) == inside
  {
    if types != [] {
      KeepMembers(types[1..], marked, inside);
    }
  }

  lemma {:induction false} KeepAll(types: seq<Byte>, marked: set<Byte>, inside: bool)
    requires forall t | t in types :: (t in marked) == inside
    ensures Keep(types, marked, inside) == types
  {
    if types != [] {
      KeepAll(types[1..], marked, inside);
    }
  }

  lemma {:induction false} OrphanStep(t: Byte, rest: seq<Byte>)
    ensures OrphanReaction([t] + rest) <==> t == REACTION || (t != MESSAGE && OrphanReaction(rest))
  {
    var all := [t] + rest;
    if t == REACTION {
      assert all[0] == REACTION && MESSAGE !in all[..0];
    }
    if t != MESSAGE && OrphanReaction(rest) {
      var i :| 0 <= i < |rest| && rest[i] == REACTION && MESSAGE !in rest[..i];
      assert all[..i + 1] == [t] + rest[..i];
      assert all[i + 1] == REACTION;
    }
    if OrphanReaction(all) && t != REACTION {
      var i :| 0 <= i < |all| && all[i] == REACTION && MESSAGE !in all[..i];
      assert all[..i] == [t] + rest[..i - 1];
      assert rest[i - 1] == REACTION;
    }
  }

  /** Media records are invisible to the reaction rule. */
  lemma {:induction false} OrphanIgnoresMedia(rest: seq<Byte>)
    ensures OrphanReaction(rest) <==> OrphanReaction(NonMediaPart(rest))
  {
    if rest != [] {
      OrphanIgnoresMedia(rest[1..]);
      assert rest == [rest[0]] + rest[1..];
      OrphanStep(rest[0], rest[1..]);
      OrphanStep(rest[0], NonMediaPart(rest[1..]));
    }
  }

  lemma OnlyMedia(rest: seq<Byte>)
    requires forall t | t in rest :: t in MEDIA_TYPES
    ensures !OrphanReaction(rest)
  {
    assert forall i | 0 <= i < |rest| :: rest[i] in rest;
  }

  lemma LegalBody(phase: int, rest: seq<Byte>)
    requires RT_END !in rest
    ensures PhaseReason(phase, [MANIFEST] + rest) == RestReason(phase, rest)
  {
    KeepAll([MANIFEST] + rest, {RT_END}, false);
  }

  /** A phase-3 stream splits into a legal phase-1 stream and a legal phase-2 stream. */
  lemma PhaseSplit(rest: seq<Byte>)
    requires RT_END !in rest
    ensures Legal(3, [MANIFEST] + rest) <==> Legal(1, [MANIFEST] + NonMediaPart(rest))
    ensures Legal(2, [MANIFEST] + MediaPart(rest))
  {
    KeepMembers(rest, MEDIA_TYPES, false);
    KeepMembers(rest, MEDIA_TYPES, true);
    LegalBody(3, rest);
    LegalBody(1, NonMediaPart(rest));
    LegalBody(2, MediaPart(rest));
    OrphanIgnoresMedia(rest);
    OnlyMedia(MediaPart(rest));
  }

  /** `whole` is made of `a` and `b`, each in its own order. */
  ghost predicate Interleaving(a: seq<Byte>, b: seq<Byte>, whole: seq<Byte>) {
    if whole == [] then a == [] && b == []
    else
      || (a != [] && a[0] == whole[0] && Interleaving(a[1..], b, whole[1..]))
      || (b != [] && b[0] == whole[0] && Interleaving(a, b[1..], whole[1..]))
  }

  lemma {:induction false} InterleavingParts(a: seq<Byte>, b: seq<Byte>, whole: seq<Byte>)
    requires forall t | t in a :: t !in MEDIA_TYPES
    requires forall t | t in b :: t in MEDIA_TYPES
    requires Interleaving(a, b, whole)
    ensures NonMediaPart(whole) == a
    ensures MediaPart(whole) == b
    decreases |whole|
  {
    if whole != [] {
      if a != [] && a[0] == whole[0] && Interleaving(a[1..], b, whole[1..]) {
        InterleavingParts(a[1..], b, whole[1..]);
      } else {
        InterleavingParts(a, b[1..], whole[1..]);
      }
    }
  }

  lemma {:induction false} SplitInterleaves(rest: seq<Byte>)
    ensures Interleaving(NonMediaPart(rest), MediaPart(rest), rest)
  {
    if rest != [] {
      SplitInterleaves(rest[1..]);
    }
  }

  /** `a` is a legal phase-1 body, `b` a legal phase-2 body, and `rest` interleaves them. */
  ghost predicate Joins(a: seq<Byte>, b: seq<Byte>, rest: seq<Byte>) {
    && RT_END !in a && RT_END !in b && Interleaving(a, b, rest)
    && Legal(1, [MANIFEST] + a) && Legal(2, [MANIFEST] + b)
  }

  lemma JoinedParts(a: seq<Byte>, b: seq<Byte>, rest: seq<Byte>)
    requires Joins(a, b, rest)
    ensures a == NonMediaPart(rest) && b == MediaPart(rest)
  {
    LegalBody(1, a);
    LegalBody(2, b);
    InterleavingParts(a, b, rest);
  }

  /**
   Joining: the legal phase-3 streams are exactly the interleavings of one legal phase-1 body with
   one legal phase-2 body under one manifest.
   */
  lemma PhaseJoin(rest: seq<Byte>)
    requires RT_END !in rest
    ensures Legal(3, [MANIFEST] + rest) <==> exists a, b :: Joins(a, b, rest)
  {
    var a, b := NonMediaPart(rest), MediaPart(rest);
    PhaseSplit(rest);
    SplitInterleaves(rest);
    KeepMembers(rest, MEDIA_TYPES, false);
    KeepMembers(rest, MEDIA_TYPES, true);
    if Legal(3, [MANIFEST] + rest) {
      assert Joins(a, b, rest);
    }
    if exists x, y :: Joins(x, y, rest) {
      var x, y :| Joins(x, y, rest);
      JoinedParts(x, y, rest);
    }
  }

  // ---- The rules in literal types ----

  lemma LegalIsNone(phase: int, rest: seq<Byte>)
    requires 0x00 !in rest
    ensures PhaseReason(phase, [0x01] + rest) == RestReason(phase, rest)
  {
    LegalBody(phase, rest);
  }

  /** What is legal in each phase after a manifest, in literal types. */
  lemma LegalExactly(rest: seq<Byte>)
    requires 0x00 !in rest
    ensures Legal(1, [0x01] + rest) <==>
            0x08 !in rest && forall i | 0 <= i < |rest| && rest[i] == 0x05 :: exists j | 0 <= j < i :: rest[j] == 0x04
    ensures Legal(2, [0x01] + rest) <==> forall i | 0 <= i < |rest| :: rest[i] == 0x08
    ensures Legal(3, [0x01] + rest) <==>
            forall i | 0 <= i < |rest| && rest[i] == 0x05 :: exists j | 0 <= j < i :: rest[j] == 0x04
  {
    LegalIsNone(1, rest);
    LegalIsNone(2, rest);
    LegalIsNone(3, rest);
    OrphanLiterally(rest);
    if forall i | 0 <= i < |rest| :: rest[i] == 0x08 {
      OnlyMedia(rest);
    }
    assert forall i | 0 <= i < |rest| :: rest[i] in rest;
  }

  lemma OrphanLiterally(rest: seq<Byte>)
    ensures OrphanReaction(rest) <==>
            exists i | 0 <= i < |rest| :: rest[i] == 0x05 && forall j | 0 <= j < i :: rest[j] != 0x04
  {
    forall i | 0 <= i < |rest|
      ensures 0x04 !in rest[..i] <==> forall j | 0 <= j < i :: rest[j] != 0x04
    {
      assert forall j | 0 <= j < i :: rest[j] == rest[..i][j];
    }
  }

  /** Only phases 1, 2 and 3 have legal streams, and only behind a manifest. */
  lemma LegalNeedsManifest(phase: int, types: seq<Byte>)
    requires 0x00 !in types && Legal(phase, types)
    ensures 1 <= phase <= 3 && types != [] && types[0] == 0x01
  {
    KeepAll(types, {RT_END}, false);
  }

  /** The reason given without a manifest, whatever the phase. */
  lemma NoManifest(phase: int, types: seq<Byte>)
    requires 0x00 !in types && (types == [] || types[0] != 0x01)
    ensures PhaseReason(phase, types) == Some(ManifestNotFirst)
  {
    KeepAll(types, {RT_END}, false);
  }

  /** The reasons a phase excludes a type, in the order they are looked for, and the wrong phases. */
  lemma TypeReasons(rest: seq<Byte>)
    requires 0x00 !in rest
    ensures 0x08 in rest ==> PhaseReason(1, [0x01] + rest) == Some(MediaInPhase1)
    ensures (exists t | t in rest :: 0x02 <= t <= 0x07) ==> PhaseReason(2, [0x01] + rest) == Some(TranscriptInPhase2)
    ensures (forall t | t in rest :: t < 0x02 || t > 0x07) && (exists t | t in rest :: t != 0x08) ==>
              PhaseReason(2, [0x01] + rest) == Some(NonMediaInPhase2)
    ensures PhaseReason(0, [0x01] + rest) == Some(Phase0)
    ensures forall phase | phase < 0 || phase > 3 :: PhaseReason(phase, [0x01] + rest) == Some(UnknownPhase(phase))
  {
    LegalIsNone(1, rest);
    LegalIsNone(2, rest);
    LegalIsNone(0, rest);
    forall phase | phase < 0 || phase > 3
      ensures PhaseReason(phase, [0x01] + rest) == Some(UnknownPhase(phase))
    {
      LegalIsNone(phase, rest);
    }
  }

  /** The reason given for a reaction with no message before it. */
  lemma ReactionReason(rest: seq<Byte>)
    requires 0x00 !in rest
    requires exists i | 0 <= i < |rest| :: rest[i] == 0x05 && forall j | 0 <= j < i :: rest[j] != 0x04
    ensures PhaseReason(3, [0x01] + rest) == Some(ReactionBeforeMessage)
    ensures 0x08 !in rest ==> PhaseReason(1, [0x01] + rest) == Some(ReactionBeforeMessage)
  {
    LegalIsNone(1, rest);
    LegalIsNone(3, rest);
    OrphanLiterally(rest);
  }

  /** End bytes are invisible wherever they stand. */
  lemma {:induction false} EndInvisible(phase: int, a: seq<Byte>, b: seq<Byte>)
    ensures PhaseReason(phase, a + [0x00] + b) == PhaseReason(phase, a + b)
  {
    EndDropped(a, b);
  }

  lemma {:induction false} EndDropped(a: seq<Byte>, b: seq<Byte>)
    ensures WithoutEnd(a + [0x00] + b) == WithoutEnd(a + b)
  {
    if a == [] {
      assert a + [0x00] + b == [0x00] + b;
      assert ([0x00] + b)[1..] == b && a + b == b;
    } else {
      EndDropped(a[1..], b);
      assert (a + [0x00] + b)[1..] == a[1..] + [0x00] + b;
      assert (a + b)[1..] == a[1..] + b;
    }
  }
}
