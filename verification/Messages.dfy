/** The 58 messages of the protocol, each as its opcode and signature. */
module Messages {
  import opened Bytes
  import opened Codec

  datatype Name =
    | HandshakeHello | HandshakeSync | HandshakeError | HandshakeDone | PrincipalGetRealm
    | PrincipalBound | PrincipalAttention | RealmRequestGrant | GrantGetLauncher
    | GrantGetLayoutFocus | GrantGetLayoutArrange | GrantGetPowerbox | GrantGetEgress
    | GrantResolved | GrantRefused | ConsentState | ViewCaptureFrame | ViewFrameReady
    | ActuatorPointerMove | ActuatorPointerButton | ActuatorPointerScroll | ActuatorTextType
    | ShimSessionCreateSurface | ShimSessionGetSeat | ShimSessionSelection
    | ShimSessionPointerConstraint | ShimSessionIdleInhibit | ShimSessionConfigure
    | ShimSessionRequestSelection | ShimSessionOfferSelection | ShimSessionPointerConstraintState
    | ShimSessionDesignation | ShimSurfaceAttach | ShimSurfaceDamage | ShimSurfaceCommit
    | ShimSurfaceFrameDone | ShimSurfaceBufferDone | ShimSeatMotion | ShimSeatButton
    | ShimSeatScroll | ShimSeatKey | ShimSeatText | ShimSeatRelativeMotion | ShimSeatGestureBegin
    | ShimSeatGestureSwipeUpdate | ShimSeatGesturePinchUpdate | ShimSeatGestureEnd | LauncherLaunch
    | LauncherLaunched | LayoutFocusFocus | LayoutArrangeSetFullscreen | PowerboxRequestFile
    | PowerboxRequestDir | PowerboxDesignated | PowerboxRefused | EgressRequestConnect
    | EgressConnected | EgressConnectFailed

  const GRANT_VERBS := 1 + 2 + 4 + 8 + 16 + 32 + 64 + 128 + 512
  const FRAME_FLAGS := 1 + 2

  /** XRGB8888 and ARGB8888, by their four-character codes. */
  function PixelFormat(): ArgType
  {
    TEnum({0x34325258, 0x34325241})
  }

  function Layout(name: Name): (m: Message)
    ensures |m.sig| <= 11
    ensures forall k | 0 <= k < |m.sig| && m.sig[k].TStr? :: m.sig[k].max <= 4096 || CarriesBulk(name)
  {
    match name
    case HandshakeHello => Message(0, [TU32, TU32, TStr(2048), TStr(32), TStr(32768)])
    case HandshakeSync => Message(1, [TU32])
    case HandshakeError => Message(0, [TU32, TEnum({0, 1, 2, 3, 4, 5, 6, 7, 8, 9}), TStr(1024)])
    case HandshakeDone => Message(1, [TU32])
    case PrincipalGetRealm => Message(0, [TU32, TStr(64)])
    case PrincipalBound => Message(0, [TStr(2048)])
    case PrincipalAttention => Message(1, [])
    case RealmRequestGrant => Message(0, [TU32, TU32, TU32, TU32, TU32, TStr(256),
                                      TBits(GRANT_VERBS), TU32, TU32, TEnum({0, 1, 2, 3}), TU32])
    case GrantGetLauncher => Message(0, [TU32])
    case GrantGetLayoutFocus => Message(1, [TU32])
    case GrantGetLayoutArrange => Message(2, [TU32])
    case GrantGetPowerbox => Message(3, [TU32])
    case GrantGetEgress => Message(4, [TU32])
    case GrantResolved => Message(0, [TEnum({0, 1, 2, 3, 4, 5, 6}), TBits(GRANT_VERBS), TEnum({0, 1, 2, 3}), TU32])
    case GrantRefused => Message(1, [TBits(GRANT_VERBS), TEnum({0, 1, 2, 3, 4, 5, 6, 7, 8}), TU32])
    case ConsentState => Message(0, [TEnum({0, 1, 2})])
    case ViewCaptureFrame => Message(0, [])
    case ViewFrameReady => Message(0, [TFd, PixelFormat(), TU32, TU32, TU32, TBits(FRAME_FLAGS)])
    case ActuatorPointerMove => Message(0, [TI32, TI32])
    case ActuatorPointerButton => Message(1, [TU32, TEnum({0, 1})])
    case ActuatorPointerScroll => Message(2, [TEnum({0, 1}), TI32])
    case ActuatorTextType => Message(0, [TStr(4096)])
    case ShimSessionCreateSurface => Message(0, [TU32])
    case ShimSessionGetSeat => Message(1, [TU32])
    case ShimSessionSelection => Message(2, [TU32, TEnum({0, 1, 2, 3}), TStr(32), TStr(61440)])
    case ShimSessionPointerConstraint => Message(3, [TU32, TU32, TEnum({0, 1, 2}), TEnum({0, 1}), TI32, TI32, TU32, TU32])
    case ShimSessionIdleInhibit => Message(4, [TU32, TEnum({0, 1})])
    case ShimSessionConfigure => Message(0, [TStr(64), TU32, TU32])
    case ShimSessionRequestSelection => Message(1, [TU32])
    case ShimSessionOfferSelection => Message(2, [TStr(32), TStr(61440)])
    case ShimSessionPointerConstraintState => Message(3, [TU32, TEnum({0, 1, 2, 3, 4})])
    case ShimSessionDesignation => Message(4, [TFd, TU32, TEnum({0, 1}), TEnum({0, 1}), TStr(255)])
    case ShimSurfaceAttach => Message(0, [TU32, TFd, TEnum({0, 1}), PixelFormat(), TU32, TU32, TU32])
    case ShimSurfaceDamage => Message(1, [TI32, TI32, TI32, TI32])
    case ShimSurfaceCommit => Message(2, [])
    case ShimSurfaceFrameDone => Message(0, [TU32])
    case ShimSurfaceBufferDone => Message(1, [TU32, TEnum({0, 1, 2, 3})])
    case ShimSeatMotion => Message(0, [TI32, TI32, TEnum({0, 1})])
    case ShimSeatButton => Message(1, [TU32, TEnum({0, 1}), TEnum({0, 1})])
    case ShimSeatScroll => Message(2, [TEnum({0, 1}), TI32, TEnum({0, 1})])
    case ShimSeatKey => Message(3, [TU32, TEnum({0, 1}), TEnum({0, 1})])
    case ShimSeatText => Message(4, [TStr(4096), TEnum({0, 1})])
    case ShimSeatRelativeMotion => Message(5, [TI32, TI32, TI32, TI32, TEnum({0, 1})])
    case ShimSeatGestureBegin => Message(6, [TEnum({0, 1}), TU32, TEnum({0, 1})])
    case ShimSeatGestureSwipeUpdate => Message(7, [TI32, TI32, TEnum({0, 1})])
    case ShimSeatGesturePinchUpdate => Message(8, [TI32, TI32, TI32, TI32, TEnum({0, 1})])
    case ShimSeatGestureEnd => Message(9, [TEnum({0, 1}), TEnum({0, 1}), TEnum({0, 1})])
    case LauncherLaunch => Message(0, [])
    case LauncherLaunched => Message(0, [TStr(64)])
    case LayoutFocusFocus => Message(0, [])
    case LayoutArrangeSetFullscreen => Message(0, [TEnum({0, 1})])
    case PowerboxRequestFile => Message(0, [TEnum({0, 1})])
    case PowerboxRequestDir => Message(1, [])
    case PowerboxDesignated => Message(0, [TFd, TU32, TEnum({0, 1}), TEnum({0, 1}), TStr(255)])
    case PowerboxRefused => Message(1, [TEnum({0, 1, 2, 3})])
    case EgressRequestConnect => Message(0, [TStr(253), TU32])
    case EgressConnected => Message(0, [TFd, TStr(253), TU32])
    case EgressConnectFailed => Message(1, [TEnum({0, 1, 2, 3})])
  }

  lemma {:induction false} BoundedArgsFit(sig: seq<ArgType>, i: nat, bound: nat)
    requires i <= |sig| && bound >= 4
    requires forall k | i <= k < |sig| :: MaxArgLen(sig[k]) <= bound
    ensures MaxBodyLen(sig, i) <= bound * (|sig| - i)
    decreases |sig| - i
  {
    if i < |sig| {
      BoundedArgsFit(sig, i + 1, bound);
      assert bound * (|sig| - i) == bound + bound * (|sig| - (i + 1));
    }
  }

  /** Only these carry a string longer than 4096 bytes. */
  predicate CarriesBulk(name: Name)
  {
    name.HandshakeHello? || name.ShimSessionSelection? || name.ShimSessionOfferSelection?
  }

  lemma BulkFits(name: Name)
    requires CarriesBulk(name)
    ensures HEADER_LEN + MaxBodyLen(Layout(name).sig, 0) <= 0xffff
  {
  }

  /** For every message the per-string bounds alone keep the frame within the
    * u16 size field. */
  lemma EveryMessageFits(name: Name)
    ensures HEADER_LEN + MaxBodyLen(Layout(name).sig, 0) <= 0xffff
  {
    hide Layout;
    if CarriesBulk(name) {
      BulkFits(name);
    } else {
      BoundedArgsFit(Layout(name).sig, 0, 4103);
    }
  }

  /** So for every message an encoder whose strings fit refuses only for want of room:
    * with enough of it, its frame comes out and its decoder takes it back. */
  lemma OnlyRoomIsRefused(name: Name, objectId: U32, args: seq<Arg>, capacity: nat, fd: int)
    requires var m := Layout(name); TypedAll(m.sig, args) && FdsAre(m.sig, args, fd) && (fd >= 0) == HasFd(m.sig)
    requires FirstComplaint(Layout(name).sig, args, 0).Ok?
    ensures var m := Layout(name);
            && (Encode(m, objectId, args, capacity) == Err(Overflow) <==> capacity < HEADER_LEN + |Body(m.sig, args, 0)|)
            && (capacity >= HEADER_LEN + |Body(m.sig, args, 0)| ==>
                  var r := Encode(m, objectId, args, capacity);
                  r.Ok? && Decode(m, r.value, fd) == Ok(Decoded(objectId, args)))
  {
    hide Layout;
    var m := Layout(name);
    EveryMessageFits(name);
    NoComplaintFits(m.sig, args, 0);
    OverflowIffSmallBuffer(m, objectId, args, capacity);
    if capacity >= HEADER_LEN + |Body(m.sig, args, 0)| {
      DecodeOfEncode(m, objectId, args, capacity, fd);
    }
  }

  lemma {:induction false} NoComplaintFits(sig: seq<ArgType>, args: seq<Arg>, i: nat)
    requires TypedAll(sig, args) && i <= |sig| && FirstComplaint(sig, args, i).Ok?
    ensures forall j | i <= j < |sig| && sig[j].TStr? :: |args[j].s| <= sig[j].max
    decreases |sig| - i
  {
    if i < |sig| {
      assert Complaint(sig[i], args[i]).Ok?;
      NoComplaintFits(sig, args, i + 1);
    }
  }
}
