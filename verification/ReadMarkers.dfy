/**
 Read markers: how far an account has read each chat, carried between its own devices. A device keeps
 one boundary per partner and moves it only forward, so devices that were delivered the same markers,
 in any order and any number of times, agree on what is read.
 */
module ReadMarkers {
  import opened Outcomes
  import opened ByteStrings

  /** The last read message: its sender's timestamp and its id as bytes. */
  datatype Marker = Marker(sentAt: nat, id: Bytes)

  type Partner = Bytes

  /** Byte strings as Python compares them: by the first difference, a proper prefix being smaller. */
  predicate Greater(a: Bytes, b: Bytes) {
    if a == [] then false
    else if b == [] then true
    else if a[0] != b[0] then a[0] > b[0]
    else Greater(a[1..], b[1..])
  }

  /** The strings agree on k bytes, and then b ends or has the smaller byte. */
  ghost predicate DecidedAt(a: Bytes, b: Bytes, k: nat) {
    k < |a| && k <= |b| && a[..k] == b[..k] && (k == |b| || a[k] > b[k])
  }

  lemma DecidedNext(a: Bytes, b: Bytes, k: nat)
    requires a != [] && b != [] && a[0] == b[0]
    ensures DecidedAt(a, b, k + 1) <==> DecidedAt(a[1..], b[1..], k)
  {
    if k < |a[1..]| && k <= |b[1..]| {
      assert a[..k + 1] == [a[0]] + a[1..][..k];
      assert b[..k + 1] == [b[0]] + b[1..][..k];
      assert a[..k + 1][1..] == a[1..][..k] && b[..k + 1][1..] == b[1..][..k];
    }
  }

  /** The comparison is by the first difference, whatever follows it. */
  lemma {:induction false} GreaterByFirstDifference(a: Bytes, b: Bytes)
    ensures Greater(a, b) <==> exists k :: DecidedAt(a, b, k)
  {
    if a != [] && b != [] && a[0] == b[0] {
      GreaterByFirstDifference(a[1..], b[1..]);
      if k: nat :| DecidedAt(a[1..], b[1..], k) {
        DecidedNext(a, b, k);
      }
      forall k: nat | DecidedAt(a, b, k)
        ensures Greater(a, b)
      {
        DecidedNext(a, b, k - 1);
      }
    } else if Greater(a, b) {
      assert DecidedAt(a, b, 0);
    } else {
      forall k: nat
        ensures !DecidedAt(a, b, k)
      {
        if k > 0 && k < |a| && k <= |b| {
          assert a[..k][0] == a[0] && b[..k][0] == b[0];
        }
      }
    }
  }

  predicate Later(a: Marker, b: Marker) {
    a.sentAt > b.sentAt || (a.sentAt == b.sentAt && Greater(a.id, b.id))
  }

  lemma {:induction false} GreaterAsymmetric(a: Bytes, b: Bytes)
    ensures !(Greater(a, b) && Greater(b, a))
    ensures !Greater(a, a)
  {
    if a != [] {
      if b != [] {
        GreaterAsymmetric(a[1..], b[1..]);
      } else {
        GreaterAsymmetric(a[1..], []);
      }
    }
  }

  lemma {:induction false} GreaterTotal(a: Bytes, b: Bytes)
    ensures a == b || Greater(a, b) || Greater(b, a)
  {
    if a != [] && b != [] && a[0] == b[0] {
      GreaterTotal(a[1..], b[1..]);
      assert a == [a[0]] + a[1..] && b == [b[0]] + b[1..];
    }
  }

  lemma {:induction false} GreaterTransitive(a: Bytes, b: Bytes, c: Bytes)
    requires Greater(a, b) && Greater(b, c)
    ensures Greater(a, c)
  {
    if c != [] && a[0] == b[0] == c[0] {
      GreaterTransitive(a[1..], b[1..], c[1..]);
    }
  }

  /** `later` is a strict total order. */
  lemma LaterStrictTotal(a: Marker, b: Marker, c: Marker)
    ensures !Later(a, a)
    ensures a == b || Later(a, b) || Later(b, a)
    ensures !(Later(a, b) && Later(b, a))
    ensures Later(a, b) && Later(b, c) ==> Later(a, c)
  {
    GreaterAsymmetric(a.id, b.id);
    GreaterTotal(a.id, b.id);
    if Greater(a.id, b.id) && Greater(b.id, c.id) {
      GreaterTransitive(a.id, b.id, c.id);
    }
  }

  datatype Answer = Apply | Ignore | Drop

  function Answered(held: Option<Marker>, marker: Marker, fromOwnAccount: bool): Answer {
    if !fromOwnAccount then Drop
    else if held.None? || Later(marker, held.value) then Apply
    else Ignore
  }

  /** An incoming message is read when it is at or before the boundary. */
  predicate Covers(boundary: Option<Marker>, message: Marker) {
    boundary.Some? && !Later(message, boundary.value)
  }

  /** The shared vectors, for any two ids of which m2 is the greater. */
  lemma Vectors(m1: Bytes, m2: Bytes)
    requires Greater(m2, m1)
    ensures Answered(None, Marker(100, m1), true) == Apply
    ensures Answered(Some(Marker(100, m2)), Marker(101, m1), true) == Apply
    ensures Answered(Some(Marker(101, m1)), Marker(100, m2), true) == Ignore
    ensures Answered(Some(Marker(100, m1)), Marker(100, m2), true) == Apply
    ensures Answered(Some(Marker(100, m2)), Marker(100, m1), true) == Ignore
    ensures Answered(Some(Marker(100, m1)), Marker(100, m1), true) == Ignore
    ensures Answered(None, Marker(100, m1), false) == Drop
    ensures Covers(Some(Marker(100, m1)), Marker(100, m1))
    ensures Covers(Some(Marker(100, m1)), Marker(99, m2))
    ensures !Covers(Some(Marker(100, m1)), Marker(101, m1))
    ensures Covers(Some(Marker(100, m2)), Marker(100, m1))
    ensures !Covers(Some(Marker(100, m1)), Marker(100, m2))
  {
    GreaterAsymmetric(m1, m2);
    GreaterAsymmetric(m1, m1);
  }

  // ---- A device over a whole delivery sequence ----

  datatype Delivery = Delivery(partner: Partner, marker: Marker, fromOwnAccount: bool)

  type Boundaries = map<Partner, Marker>

  function Boundary(device: Boundaries, partner: Partner): Option<Marker> {
    if partner in device then Some(device[partner]) else None
  }

  function Receive(device: Boundaries, d: Delivery): Boundaries {
    match Answered(Boundary(device, d.partner), d.marker, d.fromOwnAccount)
    case Apply => device[d.partner := d.marker]
    case Ignore => device
    case Drop => device
  }

  function After(device: Boundaries, ds: seq<Delivery>): Boundaries {
    if ds == [] then device else Receive(After(device, ds[..|ds| - 1]), ds[|ds| - 1])
  }

  /** The markers about a partner that came from this account. */
  ghost function OwnMarkers(ds: seq<Delivery>, partner: Partner): set<Marker> {
    set d | d in ds && d.fromOwnAccount && d.partner == partner :: d.marker
  }

  ghost predicate IsLatest(m: Marker, ms: set<Marker>) {
    m in ms && forall x | x in ms && x != m :: Later(m, x)
  }

  lemma LatestUnique(m: Marker, n: Marker, ms: set<Marker>)
    requires IsLatest(m, ms) && IsLatest(n, ms)
    ensures m == n
  {
    LaterStrictTotal(m, n, m);
  }

  lemma OwnMarkersLast(ds: seq<Delivery>, partner: Partner)
    requires ds != []
    ensures var last := ds[|ds| - 1];
            OwnMarkers(ds, partner) == OwnMarkers(ds[..|ds| - 1], partner)
                                       + if last.fromOwnAccount && last.partner == partner then {last.marker} else {}
  {
    assert ds == ds[..|ds| - 1] + [ds[|ds| - 1]];
  }

  /** A device starting empty holds the latest of the account's own markers, and none if there is none. */
  lemma {:induction false} BoundaryIsLatest(ds: seq<Delivery>, partner: Partner)
    ensures match Boundary(After(map[], ds), partner)
            case None => OwnMarkers(ds, partner) == {}
            case Some(m) => IsLatest(m, OwnMarkers(ds, partner))
    decreases |ds|
  {
    if ds != [] {
      var front, last := ds[..|ds| - 1], ds[|ds| - 1];
      BoundaryIsLatest(front, partner);
      OwnMarkersLast(ds, partner);
      var held := Boundary(After(map[], front), partner);
      if held.Some? && last.partner == partner {
        forall x | x in OwnMarkers(front, partner)
          ensures Later(last.marker, held.value) ==> x != last.marker && Later(last.marker, x)
        {
          LaterStrictTotal(last.marker, held.value, x);
          LaterStrictTotal(last.marker, x, held.value);
        }
        LaterStrictTotal(last.marker, held.value, held.value);
      }
    }
  }

  /**
   Two devices delivered the same own-account markers about a partner, in whatever order, with
   whatever repeats and whatever markers of others in between, hold the same boundary and agree on
   every message.
   */
  lemma DevicesAgree(ds: seq<Delivery>, es: seq<Delivery>, partner: Partner)
    requires OwnMarkers(ds, partner) == OwnMarkers(es, partner)
    ensures Boundary(After(map[], ds), partner) == Boundary(After(map[], es), partner)
    ensures forall m :: Covers(Boundary(After(map[], ds), partner), m) <==> Covers(Boundary(After(map[], es), partner), m)
  {
    BoundaryIsLatest(ds, partner);
    BoundaryIsLatest(es, partner);
    var x, y := Boundary(After(map[], ds), partner), Boundary(After(map[], es), partner);
    if x.Some? && y.Some? {
      LatestUnique(x.value, y.value, OwnMarkers(ds, partner));
    }
  }

  /** A message once read stays read, whatever is delivered next. */
  lemma {:induction false} ReadStaysRead(device: Boundaries, ds: seq<Delivery>, partner: Partner, message: Marker)
    requires Covers(Boundary(device, partner), message)
    ensures Covers(Boundary(After(device, ds), partner), message)
    decreases |ds|
  {
    if ds != [] {
      var front, last := ds[..|ds| - 1], ds[|ds| - 1];
      ReadStaysRead(device, front, partner, message);
      var held := Boundary(After(device, front), partner).value;
      LaterStrictTotal(message, last.marker, held);
    }
  }

  /** A message is read exactly when some own marker about its chat stands on it or after it. */
  lemma ReadExactly(ds: seq<Delivery>, partner: Partner, message: Marker)
    ensures Covers(Boundary(After(map[], ds), partner), message) <==>
            exists d | d in ds :: d.fromOwnAccount && d.partner == partner && (d.marker == message || Later(d.marker, message))
  {
    BoundaryIsLatest(ds, partner);
    var held := Boundary(After(map[], ds), partner);
    assert forall d | d in ds && d.fromOwnAccount && d.partner == partner :: d.marker in OwnMarkers(ds, partner);
    if held.Some? {
      var m := held.value;
      assert m in OwnMarkers(ds, partner);
      LaterStrictTotal(message, m, m);
      forall d | d in ds && d.fromOwnAccount && d.partner == partner
        ensures d.marker == m || Later(m, d.marker)
        ensures d.marker == message || Later(d.marker, message) ==> !Later(message, m)
      {
        LaterStrictTotal(m, d.marker, message);
        LaterStrictTotal(message, m, m);
      }
    }
  }

  /** What is answered, in terms of what is read: a marker applies exactly when it reads more. */
  lemma AnswersExactly(device: Boundaries, d: Delivery)
    ensures var held := Boundary(device, d.partner);
            var answer := Answered(held, d.marker, d.fromOwnAccount);
            && (answer == Drop <==> !d.fromOwnAccount)
            && (answer == Apply <==> d.fromOwnAccount && !Covers(held, d.marker))
            && (answer == Apply <==> Receive(device, d) != device)
            && (answer == Apply ==> Covers(Boundary(Receive(device, d), d.partner), d.marker))
  {
    LaterStrictTotal(d.marker, d.marker, d.marker);
  }

  function Own(ds: seq<Delivery>): seq<Delivery> {
    if ds == [] then []
    else
      var front, last := Own(ds[..|ds| - 1]), ds[|ds| - 1];
      if last.fromOwnAccount then front + [last] else front
  }

  lemma AfterLast(device: Boundaries, ds: seq<Delivery>, d: Delivery)
    ensures After(device, ds + [d]) == Receive(After(device, ds), d)
  {
    assert (ds + [d])[..|ds|] == ds;
  }

  /** Markers that did not come from this account change nothing, wherever they are delivered. */
  lemma {:induction false} ForeignIgnored(device: Boundaries, ds: seq<Delivery>)
    ensures After(device, ds) == After(device, Own(ds))
    decreases |ds|
  {
    if ds != [] {
      var front, last := ds[..|ds| - 1], ds[|ds| - 1];
      ForeignIgnored(device, front);
      AfterLast(device, Own(front), last);
    }
  }
}
