/**
 Once-per-component-signature-day paging. The whole read, check, send and write of
 `_alert_once` runs under one lock, so an interleaving of callers is an order of
 such sections; a section may also die between the send and the write.
 */
module Alerts {

  datatype Alert = Alert(component: string, signature: string, day: string)

  /** Signatures are outcome names and days are ISO dates; components may contain anything. */
  predicate ColonFree(a: Alert) {
    ':' !in a.signature && ':' !in a.day
  }

  /** `_dedup_key`. */
  function DedupKey(a: Alert): string {
    a.component + ":" + a.signature + ":" + a.day
  }

  function AfterLastColon(s: string): string {
    if s == [] || s[|s| - 1] == ':' then [] else AfterLastColon(s[..|s| - 1]) + [s[|s| - 1]]
  }

  lemma {:induction false} AfterLastColonReads(x: string, d: string)
    requires ':' !in d
    ensures AfterLastColon(x + ":" + d) == d
    decreases |d|
  {
    if d != [] {
      var init := d[..|d| - 1];
      assert (x + ":" + d)[..|x| + |d|] == x + ":" + init;
      AfterLastColonReads(x, init);
    }
  }

  lemma LastColon(x: string, d: string, y: string, e: string)
    requires x + ":" + d == y + ":" + e && ':' !in d && ':' !in e
    ensures x == y && d == e
  {
    AfterLastColonReads(x, d);
    AfterLastColonReads(y, e);
    assert (x + ":" + d)[..|x|] == x && (y + ":" + e)[..|y|] == y;
  }

  /** The joined key loses nothing, however many colons the component has. */
  lemma KeyIsInjective(a: Alert, b: Alert)
    requires ColonFree(a) && ColonFree(b) && DedupKey(a) == DedupKey(b)
    ensures a == b
  {
    LastColon(a.component + ":" + a.signature, a.day, b.component + ":" + b.signature, b.day);
    LastColon(a.component, a.signature, b.component, b.signature);
  }

  /** A colon in a signature is enough for two different alerts to share a key. */
  lemma ColonInSignatureCollides(component: string, x: string, y: string, day: string)
    ensures var a, b := Alert(component, x + ":" + y, day), Alert(component + ":" + x, y, day);
            a != b && DedupKey(a) == DedupKey(b)
  {
    var a, b := Alert(component, x + ":" + y, day), Alert(component + ":" + x, y, day);
    assert |a.component| != |b.component|;
  }

  /** What follows the component in a key. */
  function Tail(signature: string, day: string): string {
    ":" + signature + ":" + day
  }

  predicate EndsWith(s: string, t: string) {
    |t| <= |s| && s[|s| - |t|..] == t
  }

  /**
   Two different signature and day pairs share a key, for some components, if and only
   if the text one of them puts behind the component ends with that of the other.
   */
  lemma KeysCollideExactly(s: string, d: string, s': string, d': string)
    requires (s, d) != (s', d')
    ensures (exists c, c' :: DedupKey(Alert(c, s, d)) == DedupKey(Alert(c', s', d')))
       <==> EndsWith(Tail(s, d), Tail(s', d')) || EndsWith(Tail(s', d'), Tail(s, d))
  {
    var t, t' := Tail(s, d), Tail(s', d');
    forall c, c' ensures DedupKey(Alert(c, s, d)) == c + t && DedupKey(Alert(c', s', d')) == c' + t' {
    }
    if c, c' :| c + t == c' + t' {
      SharedEnd(c, t, c', t');
    }
    if EndsWith(t, t') {
      assert [] + t == t[..|t| - |t'|] + t';
    }
    if EndsWith(t', t) {
      assert t'[..|t'| - |t|] + t == [] + t';
    }
  }

  lemma SharedEnd(c: string, t: string, c': string, t': string)
    requires c + t == c' + t'
    ensures EndsWith(t, t') || EndsWith(t', t)
  {
    var key := c + t;
    assert key[|key| - |t|..] == t && key[|key| - |t'|..] == t';
    if |t| <= |t'| {
      assert t'[|t'| - |t|..] == key[|key| - |t|..];
    } else {
      assert t[|t| - |t'|..] == key[|key| - |t'|..];
    }
  }

  /** One locked section: whether the sender would report delivery, and whether the process dies before the write. */
  datatype Section = Section(alert: Alert, delivers: bool, dies: bool)

  datatype State = State(keys: set<string>, delivered: seq<Alert>)

  /** Nothing recorded and nothing sent. */
  const FRESH := State({}, [])

  function Step(st: State, s: Section): State {
    var key := DedupKey(s.alert);
    if key in st.keys || !s.delivers then st
    else State(if s.dies then st.keys else st.keys + {key}, st.delivered + [s.alert])
  }

  function Run(st: State, sections: seq<Section>): State
    decreases |sections|
  {
    if sections == [] then st else Run(Step(st, sections[0]), sections[1..])
  }

  function Count(alerts: seq<Alert>, a: Alert): nat {
    if alerts == [] then 0 else (if alerts[|alerts| - 1] == a then 1 else 0) + Count(alerts[..|alerts| - 1], a)
  }

  lemma CountPush(alerts: seq<Alert>, x: Alert, a: Alert)
    ensures Count(alerts + [x], a) == Count(alerts, a) + if x == a then 1 else 0
  {
    assert (alerts + [x])[..|alerts|] == alerts;
  }

  /** How many sections for `a` died after their send went through. */
  function Deaths(sections: seq<Section>, a: Alert): nat {
    if sections == [] then 0
    else
      var s := sections[0];
      (if s.alert == a && s.delivers && s.dies then 1 else 0) + Deaths(sections[1..], a)
  }

  /** The section sends `a` and lives to record it, if it gets to send at all. */
  predicate Survives(s: Section, a: Alert) {
    s.alert == a && s.delivers && !s.dies
  }

  predicate Deliverable(sections: seq<Section>, a: Alert) {
    exists s | s in sections :: Survives(s, a)
  }

  /** Index of the first section that sends `a` and survives, or the number of sections. */
  function FirstSurvivor(sections: seq<Section>, a: Alert): (k: nat)
    ensures k <= |sections|
    ensures k < |sections| ==> Survives(sections[k], a)
    ensures forall i | 0 <= i < k :: !Survives(sections[i], a)
  {
    if sections == [] || Survives(sections[0], a) then 0 else 1 + FirstSurvivor(sections[1..], a)
  }

  /** What is sent while the key is not recorded: each death before the first survivor, and the survivor. */
  function Sends(sections: seq<Section>, a: Alert): nat {
    var k := FirstSurvivor(sections, a);
    Deaths(sections[..k], a) + if k < |sections| then 1 else 0
  }

  lemma SendsFirst(sections: seq<Section>, a: Alert)
    requires sections != []
    ensures var s, rest := sections[0], sections[1..];
            Sends(sections, a) ==
            if s.alert != a || !s.delivers then Sends(rest, a) else if s.dies then 1 + Sends(rest, a) else 1
  {
    var s, rest := sections[0], sections[1..];
    var k := FirstSurvivor(sections, a);
    if !Survives(s, a) {
      assert sections[..k][1..] == rest[..k - 1];
    }
  }

  /**
   Over any interleaving: the exact number of deliveries of each component/signature/day,
   and its key is recorded exactly if it was recorded before or some section delivered
   and survived.
   */
  lemma {:induction false} DeliveredExactly(st: State, sections: seq<Section>, a: Alert)
    requires ColonFree(a) && forall s | s in sections :: ColonFree(s.alert)
    ensures var end := Run(st, sections);
            && Count(end.delivered, a) ==
               Count(st.delivered, a) + (if DedupKey(a) in st.keys then 0 else Sends(sections, a))
            && (DedupKey(a) in end.keys <==> DedupKey(a) in st.keys || Deliverable(sections, a))
    decreases |sections|
  {
    if sections != [] {
      var s, rest := sections[0], sections[1..];
      assert s in sections && forall x | x in rest :: x in sections;
      CountPush(st.delivered, s.alert, a);
      if DedupKey(s.alert) == DedupKey(a) {
        KeyIsInjective(s.alert, a);
      }
      DeliveredExactly(Step(st, s), rest, a);
      SendsFirst(sections, a);
      assert sections == [s] + rest;
      assert Deliverable(sections, a) <==> Deliverable(rest, a) || Survives(s, a);
    }
  }

  /**
   From nothing recorded, an alert is delivered at most once if and only if no section
   died over it before the first one that delivered and survived, or a single one did
   and none survived.
   */
  lemma AtMostOnceExactly(sections: seq<Section>, a: Alert)
    requires ColonFree(a) && forall s | s in sections :: ColonFree(s.alert)
    ensures var deaths := Deaths(sections[..FirstSurvivor(sections, a)], a);
            Count(Run(FRESH, sections).delivered, a) <= 1 <==>
              deaths == 0 || (deaths == 1 && !Deliverable(sections, a))
  {
    DeliveredExactly(FRESH, sections, a);
    DeliverableIsFirst(sections, a);
  }

  lemma DeliverableIsFirst(sections: seq<Section>, a: Alert)
    ensures Deliverable(sections, a) <==> FirstSurvivor(sections, a) < |sections|
  {
    if Deliverable(sections, a) {
      var s :| s in sections && Survives(s, a);
      var i :| 0 <= i < |sections| && sections[i] == s;
    }
  }

  /** Without deaths: at most one delivery, and the key is recorded exactly when there was one. */
  lemma ExactlyOnce(sections: seq<Section>, a: Alert)
    requires ColonFree(a) && forall s | s in sections :: ColonFree(s.alert) && !s.dies
    ensures var end := Run(FRESH, sections);
            && Count(end.delivered, a) == (if Deliverable(sections, a) then 1 else 0)
            && (DedupKey(a) in end.keys <==> Count(end.delivered, a) == 1)
  {
    NoDeaths(sections[..FirstSurvivor(sections, a)], a);
    DeliverableIsFirst(sections, a);
    DeliveredExactly(FRESH, sections, a);
  }

  lemma {:induction false} NoDeaths(sections: seq<Section>, a: Alert)
    requires forall s | s in sections :: !s.dies
    ensures Deaths(sections, a) == 0
  {
    if sections != [] {
      assert sections[0] in sections && forall x | x in sections[1..] :: x in sections;
      NoDeaths(sections[1..], a);
    }
  }

  /** A section that dies after its send really does page twice. */
  lemma DeathPagesTwice(a: Alert)
    ensures var run := [Section(a, true, true), Section(a, true, false)];
            Run(FRESH, run).delivered == [a, a]
  {
    var first, second := Section(a, true, true), Section(a, true, false);
    var run := [first, second];
    assert run[1..] == [second];
    var st := Step(FRESH, first);
    assert Run(st, [second]) == Step(st, second);
    assert st.delivered + [a] == [a, a];
  }

  /** `alerted.json`, with what was actually delivered kept beside it. */
  class AlertLog {
    var keys: set<string>
    ghost var delivered: seq<Alert>

    constructor ()
      ensures keys == {} && delivered == []
    {
      keys, delivered := {}, [];
    }

    /** `_alert_once`, the whole locked section; true only if this call delivered the page and recorded it. */
    method AlertOnce(a: Alert, delivers: bool) returns (sent: bool)
      modifies this
      ensures State(keys, delivered) == Step(old(State(keys, delivered)), Section(a, delivers, false))
      ensures sent <==> DedupKey(a) !in old(keys) && DedupKey(a) in keys
      // an undelivered page leaves the key eligible
      ensures !delivers ==> keys == old(keys) && delivered == old(delivered)
    {
      var key := DedupKey(a);
      if key in keys {
        return false;
      }
      if !delivers {
        return false;
      }
      delivered := delivered + [a];
      keys := keys + {key};
      return true;
    }
  }
}
