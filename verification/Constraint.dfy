/** The shim's half of pointer constraints: one live record, asks with rising
  * serials, and re-entrancy, because deactivating a oneshot object destroys it
  * and so calls back into the destroy handler.
  *
  * Asks are numbered without bound here; the wire carries the number modulo
  * 2^32, and that remainder is all the shim ever compares. */
module Constraint {
  import opened Bytes
  import opened Options

  const SURFACE_ID: nat := 2

  datatype Kind = KindNone | Lock | Confine

  datatype Lifetime = Oneshot | Persistent

  datatype Status = Inactive | Active | Withdrawn | Refused | Superseded

  datatype Region = Region(x: int, y: int, width: nat, height: nat)

  datatype Ask = Ask(id: nat, surface: Option<nat>, kind: Kind, lifetime: Lifetime, region: Region)

  datatype Verdict = Verdict(id: nat, status: Status)

  /** One `zwp_locked_pointer_v1` or `zwp_confined_pointer_v1`. */
  datatype Object = Object(kind: Kind, lifetime: Lifetime, region: Region)

  /** What an app's object is told, and its end. */
  datatype Event = Activated(o: nat) | Deactivated(o: nat) | Destroyed(o: nat)

  /** The relay and the app's objects. `sent` is everything ever put on the
    * wire towards the core, `events` everything ever done to app objects. */
  datatype Shim = Shim(live: Option<nat>, id: nat, activated: bool, nextId: nat,
                       objects: map<nat, Object>, sent: seq<Ask>, events: seq<Event>)

  const START := Shim(None, 0, false, 1, map[], [], [])

  /** The number a serial is on the wire. */
  function Serial(id: nat): (s: U32)
  {
    id % U32_LIMIT
  }

  // ---- the handlers as functions ---------------------------------------

  function SendWithdrawal(s: Shim): Shim
  {
    s.(nextId := s.nextId + 1, sent := s.sent + [Ask(s.nextId, None, KindNone, Oneshot, Region(0, 0, 0, 0))])
  }

  /** Ask, under a fresh serial, for the object `o`. */
  function AskFor(s: Shim, o: nat): Shim
    requires o in s.objects
  {
    var obj := s.objects[o];
    s.(id := s.nextId, activated := false, nextId := s.nextId + 1,
       sent := s.sent + [Ask(s.nextId, Some(SURFACE_ID), obj.kind, obj.lifetime, obj.region)])
  }

  function ForgetLive(s: Shim): Shim
  {
    if s.live.None? then s else s.(live := None, id := 0, activated := false)
  }

  function OnLiveDestroy(s: Shim): Shim
  {
    SendWithdrawal(ForgetLive(s))
  }

  /** The object goes away; if it is the live one its destroy signal fires. */
  function DestroyObject(s: Shim, o: nat): Shim
  {
    var signalled := if s.live == Some(o) then OnLiveDestroy(s) else s;
    signalled.(objects := signalled.objects - {o}, events := signalled.events + [Destroyed(o)])
  }

  function SendActivated(s: Shim, o: nat): Shim
  {
    s.(events := s.events + [Activated(o)])
  }

  /** Deactivation ends a oneshot object for good. */
  function SendDeactivated(s: Shim, o: nat): Shim
    requires o in s.objects
  {
    var told := s.(events := s.events + [Deactivated(o)]);
    if s.objects[o].lifetime == Oneshot then DestroyObject(told, o) else told
  }

  function Adopt(s: Shim, o: nat): Shim
    requires o in s.objects
  {
    AskFor(s.(live := Some(o)), o)
  }

  predicate LiveExists(s: Shim)
  {
    s.live.Some? ==> s.live.value in s.objects
  }

  function OnNewConstraint(s: Shim, o: nat, obj: Object): Shim
    requires LiveExists(s) && o !in s.objects
  {
    var created := s.(objects := s.objects[o := obj]);
    var told := if created.live.Some? && created.activated then SendDeactivated(created, created.live.value) else created;
    Adopt(ForgetLive(told), o)
  }

  function OnSetRegion(s: Shim, o: nat, region: Region): Shim
    requires o in s.objects
  {
    var moved := s.(objects := s.objects[o := s.objects[o].(region := region)]);
    if moved.live == Some(o) then AskFor(moved, o) else moved
  }

  function HandleState(s: Shim, v: Verdict): Shim
    requires LiveExists(s)
  {
    if s.live.None? || Serial(v.id) != Serial(s.id) then s
    else
      var o := s.live.value;
      match v.status
      case Active => if s.activated then s else SendActivated(s, o).(activated := true)
      case Inactive => if s.activated then SendDeactivated(s.(activated := false), o) else s
      case Withdrawn => ForgetLive(if s.activated then SendDeactivated(s.(activated := false), o) else s)
      case Refused => ForgetLive(s)
      case Superseded => s
  }

  // ---- the relay object ------------------------------------------------------

  /** An ask as the wire carries it. */
  function OnTheWire(a: Ask): Ask
  {
    a.(id := Serial(a.id))
  }

  /** `struct vitrin_constraint` with the app's objects and the two directions
    * it speaks in. The ghost fields number the asks before wrap-around. */
  class Relay {
    var live: Option<nat>
    var serial: U32
    var activated: bool
    var nextSerial: U32
    var objects: map<nat, Object>
    var wire: seq<Ask>
    var events: seq<Event>
    ghost var id: nat
    ghost var nextId: nat
    ghost var sent: seq<Ask>

    ghost predicate Valid()
      reads this
    {
      && serial == Serial(id) && nextSerial == Serial(nextId)
      && |wire| == |sent| && (forall i | 0 <= i < |sent| :: wire[i] == OnTheWire(sent[i]))
    }

    ghost function View(): Shim
      reads this
    {
      Shim(live, id, activated, nextId, objects, sent, events)
    }

    /** `vitrin_constraint_create` */
    constructor ()
      ensures Valid() && View() == START
    {
      live, serial, activated, nextSerial := None, 0, false, 1;
      objects, wire, events, id, nextId, sent := map[], [], [], 0, 1, [];
    }

    /** `send_ask` under `c->next_serial++`, a u32. */
    method SendAsk(surface: Option<nat>, kind: Kind, lifetime: Lifetime, region: Region) returns (s: U32)
      requires Valid()
      modifies this`nextSerial, this`nextId, this`wire, this`sent
      ensures Valid() && s == Serial(old(nextId)) && nextId == old(nextId) + 1
      ensures sent == old(sent) + [Ask(old(nextId), surface, kind, lifetime, region)]
    {
      s := nextSerial;
      nextSerial := if nextSerial == U32_LIMIT - 1 then 0 else nextSerial + 1;
      wire := wire + [Ask(s, surface, kind, lifetime, region)];
      sent := sent + [Ask(nextId, surface, kind, lifetime, region)];
      nextId := nextId + 1;
    }

    method AskForLive(o: nat)
      requires Valid() && o in objects
      modifies this
      ensures Valid() && View() == AskFor(old(View()), o)
    {
      var obj := objects[o];
      ghost var minted := nextId;
      serial := SendAsk(Some(SURFACE_ID), obj.kind, obj.lifetime, obj.region);
      activated := false;
      id := minted;
    }

    /** `forget_live` */
    method Forget()
      requires Valid()
      modifies this
      ensures Valid() && View() == ForgetLive(old(View()))
    {
      if live.None? {
        return;
      }
      live, serial, id, activated := None, 0, 0, false;
    }

    /** `on_live_destroy` */
    method LiveDestroyed()
      requires Valid()
      modifies this
      ensures Valid() && View() == OnLiveDestroy(old(View()))
    {
      Forget();
      var _ := SendAsk(None, KindNone, Oneshot, Region(0, 0, 0, 0));
    }

    /** wlroots destroys an object: its signal reaches the relay only while the
      * relay listens, which it does exactly for the live one. */
    method Destroy(o: nat)
      requires Valid()
      modifies this
      ensures Valid() && View() == DestroyObject(old(View()), o)
    {
      if live == Some(o) {
        LiveDestroyed();
      }
      objects := objects - {o};
      events := events + [Destroyed(o)];
    }

    /** `wlr_pointer_constraint_v1_send_deactivated`: may re-enter. */
    method Deactivate(o: nat)
      requires Valid() && o in objects
      modifies this
      ensures Valid() && View() == SendDeactivated(old(View()), o)
    {
      var lifetime := objects[o].lifetime;
      events := events + [Deactivated(o)];
      if lifetime == Oneshot {
        Destroy(o);
      }
    }

    /** `on_new_constraint` */
    method NewConstraint(o: nat, obj: Object)
      requires Valid() && LiveExists(View()) && o !in objects
      modifies this
      ensures Valid() && View() == OnNewConstraint(old(View()), o, obj)
    {
      objects := objects[o := obj];
      if live.Some? {
        if activated {
          Deactivate(live.value);
        }
        Forget();
      }
      live := Some(o);
      AskForLive(o);
    }

    /** `on_live_set_region` */
    method SetRegion(o: nat, region: Region)
      requires Valid() && o in objects
      modifies this
      ensures Valid() && View() == OnSetRegion(old(View()), o, region)
    {
      objects := objects[o := objects[o].(region := region)];
      if live == Some(o) {
        AskForLive(o);
      }
    }

    /** `vitrin_constraint_handle_state` for a decoded verdict about `about`. */
    method Handle(evSerial: U32, status: Status, ghost about: nat)
      requires Valid() && LiveExists(View()) && evSerial == Serial(about)
      modifies this
      ensures Valid() && View() == HandleState(old(View()), Verdict(about, status))
    {
      if live.None? || evSerial != serial {
        return;
      }
      var o := live.value;
      match status
      case Active =>
        if !activated {
          events := events + [Activated(o)];
          activated := true;
        }
      case Inactive =>
        if activated {
          activated := false;
          Deactivate(o);
        }
      case Withdrawn =>
        if activated {
          activated := false;
          Deactivate(o);
        }
        Forget();
      case Refused =>
        Forget();
      case Superseded =>
    }

    /** `vitrin_constraint_finish` */
    method Finish()
      requires Valid()
      modifies this
      ensures Valid() && View() == ForgetLive(old(View()))
    {
      Forget();
    }
  }
}
