/** The network link monitor as a state machine emitting events (libs/netlib/src/monitor.rs). */
module Monitor {
  import opened Prelude

  datatype LinkMessage = LinkMessage(name: Option<string>, index: nat, mac: Option<seq<nat>>, lowerUp: bool)

  datatype Message = NewLink(link: LinkMessage) | DelLink(link: LinkMessage) | Unrelated

  datatype Event =
    | Up(name: string, index: nat)
    | Down(name: string, index: nat)
    | Added(name: string, index: nat, mac: seq<nat>)
    | Deleted(name: string, index: nat)

  datatype Config = Config(linkState: bool, linkChanges: bool)

  datatype Link = Link(name: string, carrier: bool)

  type Links = map<nat, Link>

  /** eth*, enp*, ens*, eno* and end*; none of these is `lo`, `wlan*` or `wlp*`. */
  predicate IsEthernet(name: string) {
    |name| >= 3 && name[0] == 'e' &&
    ((name[1] == 't' && name[2] == 'h') ||
     (name[1] == 'n' && (name[2] == 'p' || name[2] == 's' || name[2] == 'o' || name[2] == 'd')))
  }

  predicate ValidName(name: string) {
    0 < |name| <= 15 && '\0' !in name
  }

  /** The names of Ethernet links are those with one of five prefixes. */
  lemma EthernetMeans(name: string)
    ensures IsEthernet(name) <==>
            "eth" <= name || "enp" <= name || "ens" <= name || "eno" <= name || "end" <= name
  {
  }

  // ---------- one message, as a value ----------

  function NewLinkStep(links: Links, m: LinkMessage): (Links, seq<Event>) {
    if m.name.None? || !IsEthernet(m.name.value) then (links, [])
    else
      var name, i := m.name.value, m.index;
      var entry := Link(name, m.lowerUp);
      if i in links then
        if m.lowerUp == links[i].carrier || !ValidName(name) then (links, [])
        else (links[i := entry], [if m.lowerUp then Up(name, i) else Down(name, i)])
      else
        (links[i := entry], if m.mac.Some? && ValidName(name) then [Added(name, i, m.mac.value)] else [])
  }

  function DelLinkStep(links: Links, m: LinkMessage): (Links, seq<Event>) {
    if m.name.None? || !IsEthernet(m.name.value) || !ValidName(m.name.value) then (links, [])
    else (links - {m.index}, [Deleted(m.name.value, m.index)])
  }

  predicate HandlesNew(c: Config) {
    c.linkChanges || c.linkState
  }

  function Step(c: Config, links: Links, m: Message): (Links, seq<Event>) {
    match m
    case NewLink(l) => if HandlesNew(c) then NewLinkStep(links, l) else (links, [])
    case DelLink(l) => if c.linkChanges then DelLinkStep(links, l) else (links, [])
    case Unrelated => (links, [])
  }

  /** A message about a validly named Ethernet link. */
  predicate Names(m: LinkMessage, name: string, i: nat) {
    m.name == Some(name) && m.index == i && IsEthernet(name) && ValidName(name)
  }

  /** What events a message causes, event by event. */
  lemma StepEmits(c: Config, links: Links, m: Message, name: string, i: nat, mac: seq<nat>)
    ensures Up(name, i) in Step(c, links, m).1 <==>
            m.NewLink? && HandlesNew(c) && Names(m.link, name, i) && i in links && m.link.lowerUp && !links[i].carrier
    ensures Down(name, i) in Step(c, links, m).1 <==>
            m.NewLink? && HandlesNew(c) && Names(m.link, name, i) && i in links && !m.link.lowerUp && links[i].carrier
    ensures Added(name, i, mac) in Step(c, links, m).1 <==>
            m.NewLink? && HandlesNew(c) && Names(m.link, name, i) && i !in links && m.link.mac == Some(mac)
    ensures Deleted(name, i) in Step(c, links, m).1 <==> m.DelLink? && c.linkChanges && Names(m.link, name, i)
    ensures |Step(c, links, m).1| <= 1
  {
  }

  /** Which links are tracked after a message. */
  lemma StepTracks(c: Config, links: Links, m: Message, i: nat)
    ensures i in Step(c, links, m).0 <==>
            (i in links && !(m.DelLink? && c.linkChanges && m.link.index == i && m.link.name.Some?
                             && Names(m.link, m.link.name.value, i)))
            || (m.NewLink? && HandlesNew(c) && m.link.index == i && m.link.name.Some? && IsEthernet(m.link.name.value))
  {
  }

  /** The first `n` messages, from the scanned links on. */
  function Run(c: Config, links: Links, ms: seq<Message>, n: nat): (Links, seq<Event>)
    requires n <= |ms|
  {
    if n == 0 then (links, [])
    else
      var before := Run(c, links, ms, n - 1);
      var step := Step(c, before.0, ms[n - 1]);
      (step.0, before.1 + step.1)
  }

  // ---------- the handlers, in place ----------

  class Watcher {
    var links: Links
    var events: seq<Event>

    constructor (scanned: Links)
      ensures links == scanned && events == []
    {
      links := scanned;
      events := [];
    }

    method EmitLinkAdded(name: string, index: nat, mac: Option<seq<nat>>, carrier: bool)
      modifies this
      ensures links == old(links)[index := Link(name, carrier)]
      ensures events == old(events) + if mac.Some? && ValidName(name) then [Added(name, index, mac.value)] else []
    {
      if mac.Some? {
        if !ValidName(name) {
          links := links[index := Link(name, carrier)];
          return;
        }
        events := events + [Added(name, index, mac.value)];
      }
      links := links[index := Link(name, carrier)];
    }

    method HandleNewLink(m: LinkMessage)
      modifies this
      ensures links == NewLinkStep(old(links), m).0 && events == old(events) + NewLinkStep(old(links), m).1
    {
      if m.name.None? || !IsEthernet(m.name.value) {
        return;
      }
      var name, index := m.name.value, m.index;
      if index in links {
        if m.lowerUp != links[index].carrier {
          if !ValidName(name) {
            return;
          }
          if m.lowerUp {
            events := events + [Up(name, index)];
          } else {
            events := events + [Down(name, index)];
          }
          links := links[index := Link(name, m.lowerUp)];
        }
      } else {
        EmitLinkAdded(name, index, m.mac, m.lowerUp);
      }
    }

    method HandleDelLink(m: LinkMessage)
      modifies this
      ensures links == DelLinkStep(old(links), m).0 && events == old(events) + DelLinkStep(old(links), m).1
    {
      if m.name.None? || !IsEthernet(m.name.value) || !ValidName(m.name.value) {
        return;
      }
      events := events + [Deleted(m.name.value, m.index)];
      links := links - {m.index};
    }

    method HandleMessage(c: Config, m: Message)
      modifies this
      ensures links == Step(c, old(links), m).0 && events == old(events) + Step(c, old(links), m).1
    {
      match m
      case NewLink(l) => if c.linkChanges || c.linkState { HandleNewLink(l); }
      case DelLink(l) => if c.linkChanges { HandleDelLink(l); }
      case Unrelated =>
    }
  }

  /** The message loop: the watcher goes through exactly the run of its messages. */
  method Watch(w: Watcher, c: Config, ms: seq<Message>)
    modifies w
    ensures w.links == Run(c, old(w.links), ms, |ms|).0
    ensures w.events == old(w.events) + Run(c, old(w.links), ms, |ms|).1
  {
    for n := 0 to |ms|
      invariant w.links == Run(c, old(w.links), ms, n).0
      invariant w.events == old(w.events) + Run(c, old(w.links), ms, n).1
    {
      w.HandleMessage(c, ms[n]);
    }
  }

  // ---------- alternation over every run ----------

  datatype Kind = Rise | Fall | Gone

  function KindFor(e: Event, i: nat): Option<Kind> {
    if e.index != i then None
    else match e case Up(_, _) => Some(Rise) case Down(_, _) => Some(Fall) case Deleted(_, _) => Some(Gone)
                 case Added(_, _, _) => None
  }

  /** What the last carrier or removal event of link `i` was. */
  function LastKind(es: seq<Event>, i: nat): Option<Kind> {
    if es == [] then None
    else
      var n := |es| - 1;
      if KindFor(es[n], i).Some? then KindFor(es[n], i) else LastKind(es[..n], i)
  }

  /** No rise follows a rise, and no fall a fall, of the same link. */
  ghost predicate Alternates(es: seq<Event>) {
    forall b :: 0 <= b < |es| ==>
      (es[b].Up? ==> LastKind(es[..b], es[b].index) != Some(Rise)) &&
      (es[b].Down? ==> LastKind(es[..b], es[b].index) != Some(Fall))
  }

  /** A link whose last event was a rise is tracked with carrier, and after a fall without. */
  ghost predicate Agrees(links: Links, es: seq<Event>) {
    forall i: nat :: (LastKind(es, i) == Some(Rise) ==> i in links && links[i].carrier)
                     && (LastKind(es, i) == Some(Fall) ==> i in links && !links[i].carrier)
  }

  lemma LastKindSnoc(es: seq<Event>, e: Event, i: nat)
    ensures LastKind(es + [e], i) == if KindFor(e, i).Some? then KindFor(e, i) else LastKind(es, i)
  {
  }

  lemma AlternatesSnoc(es: seq<Event>, e: Event)
    requires Alternates(es)
    requires e.Up? ==> LastKind(es, e.index) != Some(Rise)
    requires e.Down? ==> LastKind(es, e.index) != Some(Fall)
    ensures Alternates(es + [e])
  {
    var more := es + [e];
    forall b | 0 <= b < |more|
      ensures (more[b].Up? ==> LastKind(more[..b], more[b].index) != Some(Rise)) &&
              (more[b].Down? ==> LastKind(more[..b], more[b].index) != Some(Fall))
    {
      assert more[..b] == es[..b];
      assert es[..|es|] == es;
    }
  }

  lemma StepKeeps(c: Config, links: Links, es: seq<Event>, m: Message)
    requires Agrees(links, es) && Alternates(es)
    ensures Agrees(Step(c, links, m).0, es + Step(c, links, m).1) && Alternates(es + Step(c, links, m).1)
  {
    var (after, emitted) := Step(c, links, m);
    if emitted == [] {
      assert es + emitted == es;
    } else {
      var e := emitted[0];
      assert emitted == [e];
      AlternatesSnoc(es, e);
      forall i: nat ensures LastKind(es + [e], i) == if KindFor(e, i).Some? then KindFor(e, i) else LastKind(es, i) {
        LastKindSnoc(es, e, i);
      }
    }
  }

  lemma {:induction false} RunKeeps(c: Config, links: Links, ms: seq<Message>, n: nat)
    requires n <= |ms|
    ensures Agrees(Run(c, links, ms, n).0, Run(c, links, ms, n).1) && Alternates(Run(c, links, ms, n).1)
  {
    if n > 0 {
      RunKeeps(c, links, ms, n - 1);
      StepKeeps(c, Run(c, links, ms, n - 1).0, Run(c, links, ms, n - 1).1, ms[n - 1]);
    }
  }

  /** If no event between `a` and `b` is a fall or removal of `i`, the last kind is still what it was at `a`. */
  lemma {:induction false} KindPersists(es: seq<Event>, a: nat, b: nat, i: nat)
    requires a < b <= |es| && KindFor(es[a], i).Some?
    requires forall k :: a < k < b ==> KindFor(es[k], i).None? || KindFor(es[k], i) == KindFor(es[a], i)
    ensures LastKind(es[..b], i) == KindFor(es[a], i)
    decreases b
  {
    assert es[..b][..b - 1] == es[..b - 1];
    if b - 1 > a { KindPersists(es, a, b - 1, i); }
  }

  /** Between two rises of one link there is a fall or a removal of it, and likewise between two falls. */
  lemma RunAlternates(c: Config, links: Links, ms: seq<Message>, a: nat, b: nat)
    requires var es := Run(c, links, ms, |ms|).1;
             a < b < |es| && es[a].index == es[b].index && ((es[a].Up? && es[b].Up?) || (es[a].Down? && es[b].Down?))
    ensures var es := Run(c, links, ms, |ms|).1;
            exists k :: a < k < b && es[k].index == es[a].index
                        && (es[k].Deleted? || (if es[a].Up? then es[k].Down? else es[k].Up?))
  {
    var es := Run(c, links, ms, |ms|).1;
    var i := es[a].index;
    RunKeeps(c, links, ms, |ms|);
    if forall k :: a < k < b ==> KindFor(es[k], i).None? || KindFor(es[k], i) == KindFor(es[a], i) {
      KindPersists(es, a, b, i);
    } else {
      var k :| a < k < b && !(KindFor(es[k], i).None? || KindFor(es[k], i) == KindFor(es[a], i));
      assert es[k].index == i;
    }
  }

  // ---------- the tracked carrier ----------

  predicate Reports(m: Message, i: nat) {
    m.NewLink? && m.link.index == i && m.link.name.Some? && IsEthernet(m.link.name.value)
  }

  /** The last of the first `n` messages that reports link `i`. */
  function LastReport(ms: seq<Message>, n: nat, i: nat): (r: Option<nat>)
    requires n <= |ms|
    ensures r.Some? ==> r.value < n && Reports(ms[r.value], i)
    ensures forall k :: (if r.Some? then r.value + 1 else 0) <= k < n ==> !Reports(ms[k], i)
  {
    if n == 0 then None
    else if Reports(ms[n - 1], i) then Some(n - 1) else LastReport(ms, n - 1, i)
  }

  /** A report is taken over unless it changes the carrier of a tracked link under an invalid name. */
  predicate TakenOver(was: Links, m: LinkMessage)
    requires m.name.Some?
  {
    m.index !in was || was[m.index].carrier == m.lowerUp || ValidName(m.name.value)
  }

  /**
   * Over every run, a tracked link has the carrier of its last report exactly if that report was
   * taken over when it came; a link that was never reported is as it was scanned.
   */
  lemma {:induction false} CarrierExactly(c: Config, links: Links, ms: seq<Message>, n: nat, i: nat)
    requires n <= |ms| && HandlesNew(c) && i in Run(c, links, ms, n).0
    ensures var after, last := Run(c, links, ms, n).0, LastReport(ms, n, i);
            match last
            case None => i in links && after[i] == links[i]
            case Some(k) =>
              var m := ms[k].link;
              after[i].carrier == m.lowerUp <==> TakenOver(Run(c, links, ms, k).0, m)
  {
    if n > 0 && !Reports(ms[n - 1], i) {
      CarrierExactly(c, links, ms, n - 1, i);
    }
  }

  /** If the last report of a tracked link has a valid name, its carrier is the tracked one. */
  lemma CarrierIsLastReport(c: Config, links: Links, ms: seq<Message>, n: nat, i: nat)
    requires n <= |ms| && HandlesNew(c) && i in Run(c, links, ms, n).0 && LastReport(ms, n, i).Some?
    requires ValidName(ms[LastReport(ms, n, i).value].link.name.value)
    ensures Run(c, links, ms, n).0[i].carrier == ms[LastReport(ms, n, i).value].link.lowerUp
  {
    CarrierExactly(c, links, ms, n, i);
  }

  /** A link that comes up and is then reported down under a name that is too long stays up. */
  lemma LongNameIsMissed()
    ensures var up := LinkMessage(Some("eth0"), 1, None, true);
            var down := LinkMessage(Some("eth0123456789abc"), 1, None, false);
            var ms := [NewLink(up), NewLink(down)];
            var after := Run(Config(true, true), map[], ms, 2).0;
            1 in after && after[1].carrier && LastReport(ms, 2, 1) == Some(1) && !ms[1].link.lowerUp
  {
    var up := LinkMessage(Some("eth0"), 1, None, true);
    var down := LinkMessage(Some("eth0123456789abc"), 1, None, false);
    var ms := [NewLink(up), NewLink(down)];
    assert Run(Config(true, true), map[], ms, 1).0 == map[1 := Link("eth0", true)];
  }
}
