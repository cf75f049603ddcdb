/** The USB hardware layer as functions on a snapshot of the peripheral: one
    function per firmware routine gives the snapshot after the routine, and the
    lemmas here state what those routines promise. The class in UsbHw runs the
    routines on the registers themselves and is proved to match these functions. */
module UsbSpec {
  import opened UsbRegs
  import opened UsbPma

  type Word16 = x: nat | x < 0x1_0000

  /** Compile-time configuration of the stack. */
  datatype Config = Config(
    resetEvent: bool,     // USB_RESET_EVENT
    suspendEvent: bool,   // USB_SUSPEND_EVENT
    wakeupEvent: bool,    // USB_WAKEUP_EVENT
    sofEvent: bool,       // USB_SOF_EVENT
    errorEvent: bool,     // USB_ERROR_EVENT
    maxPacket0: nat,      // USB_MAX_PACKET0
    epBufAddr: nat,       // EP_BUF_ADDR
    dblBufEp: bv16,       // USB_DBL_BUF_EP
    handlers: seq<bool>)  // USB_P_EP[n] != NULL
  {
    predicate Valid() {
      && (maxPacket0 == 8 || maxPacket0 == 16 || maxPacket0 == 32 || maxPacket0 == 64)
      && epBufAddr % 2 == 0
      && epBufAddr + 2 * maxPacket0 <= PmaBytes
      && |handlers| == 16
    }
  }

  /** An endpoint descriptor (section 9.6.6 of the USB 2.0 specification). */
  datatype EndpointDescriptor = EndpointDescriptor(
    bEndpointAddress: bv8, bmAttributes: bv8, wMaxPacketSize: Word16)

  // Fields of an endpoint descriptor (section 9.6.6 of the USB 2.0 specification)
  const UsbEndpointDirectionMask: bv8 := 0x80
  const UsbEndpointTypeMask: bv8 := 0x03
  const UsbEndpointTypeControl: bv8 := 0x00
  const UsbEndpointTypeIsochronous: bv8 := 0x01
  const UsbEndpointTypeBulk: bv8 := 0x02
  const UsbEndpointTypeInterrupt: bv8 := 0x03

  /** The kinds of call made to an endpoint's handler. */
  datatype EpEvent = Setup | Out | In

  /** A call from the hardware layer into the layer above, in the order made. */
  datatype Event =
    | EpCallback(ep: nat, evt: EpEvent)   // USB_P_EP[ep](evt)
    | ResetEvent                          // USB_Reset_Event()
    | SuspendEvent                        // USB_Suspend_Event()
    | WakeUpEvent                         // USB_WakeUp_Event()
    | SofEvent                            // USB_SOF_Event()
    | ErrorEvent(code: nat)               // USB_Error_Event(code)

  /** One entry of the buffer descriptor table. */
  datatype BufDscr = BufDscr(addrTx: nat, countTx: nat, addrRx: nat, countRx: nat)

  /** A snapshot of the peripheral, the firmware's globals and the calls made so far. */
  datatype UsbState = UsbState(
    istr: Istr, cntr: bv16, daddr: bv16, btable: bv16, fnr: bv16,
    connected: bool,
    epReg: seq<bv16>,
    dscr: seq<BufDscr>,
    pma: seq<bv16>,
    freeBufAddr: nat,
    log: seq<Event>)

  predicate Shaped(h: UsbState) {
    |h.epReg| == 16 && |h.dscr| == 16 && |h.pma| == PmaWords
  }

  /** EP_Reset. */
  function EpResetSpec(h: UsbState, epNum: bv32): UsbState
    requires Shaped(h)
  {
    var n := EpIndex(epNum);
    h.(epReg := h.epReg[n := EpResetEffect(epNum, h.epReg[n])])
  }

  /** EP_Status. */
  function EpStatusSpec(h: UsbState, epNum: bv32, stat: bv16): UsbState
    requires Shaped(h)
  {
    var n := EpIndex(epNum);
    h.(epReg := h.epReg[n := EpStatusEffect(epNum, h.epReg[n], stat)])
  }

  /** USB_ClrStallEP after USB_SetStallEP leaves the endpoint register as
      USB_ClrStallEP alone would: the stall leaves no trace. */
  lemma ClrStallAfterSetStall(h: UsbState, epNum: bv32)
    requires Shaped(h)
    ensures EpStatusSpec(EpStatusSpec(h, epNum, EpTxStall | EpRxStall), epNum, EpTxValid | EpRxValid)
         == EpStatusSpec(h, epNum, EpTxValid | EpRxValid)
  {
    var n := EpIndex(epNum);
    EpStatusLastWins(epNum, h.epReg[n], EpTxStall | EpRxStall, EpTxValid | EpRxValid);
  }

  /** USB_Connect: force a bus reset, drop every pending interrupt, then either
      enable only the reset interrupt (connect) or hold the peripheral in reset,
      suspended and in low-power mode with every interrupt masked (disconnect). */
  function ConnectSpec(h: UsbState, con: bool): (r: UsbState)
    ensures r.istr.flags == {}
    ensures con ==> r.cntr == CntrResetm && r.cntr & CntrFres == 0 && r.connected == h.connected
    ensures con ==> r.cntr & CntrInterrupts == CntrResetm
    ensures !con ==> r.cntr == CntrFres | CntrLpMode | CntrFsusp && !r.connected
    ensures !con ==> r.cntr & CntrInterrupts == 0
    ensures r.(cntr := h.cntr, istr := h.istr, connected := h.connected) == h
  {
    var h1 := h.(cntr := CntrFres, istr := IstrClear(h.istr));
    if con then h1.(cntr := CntrResetm)
    else h1.(cntr := CntrFres | CntrLpMode | CntrFsusp, connected := false)
  }

  /** USB_Reset: clears every pending interrupt and leaves the packet memory and
      the calls made so far alone; what it sets up is stated by ResetEffects. */
  function ResetSpec(C: Config, h: UsbState): (r: UsbState)
    requires Shaped(h)
    ensures Shaped(r) && r.istr.flags == {} && r.istr.epId == h.istr.epId
    ensures r.pma == h.pma && r.log == h.log
  {
    var base := C.epBufAddr;
    var mp := C.maxPacket0;
    var d0 := h.dscr[0].(addrTx := base, addrRx := base + mp, countRx := CountRxWord(mp));
    h.(istr := IstrClear(h.istr),
       cntr := ResetCntr(C.suspendEvent, C.wakeupEvent, C.errorEvent, C.sofEvent),
       freeBufAddr := base + 2 * mp,
       btable := 0,
       dscr := h.dscr[0 := d0],
       epReg := h.epReg[0 := EpWrite(h.epReg[0], EpControl | EpRxValid)],
       daddr := DaddrEf | 0)
  }

  /** USB_Reset re-arms the interrupt mask, restarts the allocator, places both
      buffers of the control endpoint 0 at the start of the buffer area with a
      receive capacity of exactly USB_MAX_PACKET0, configures endpoint 0 as a
      control endpoint enabled for reception, and enables the device at the default
      address 0. No other endpoint changes. */
  lemma ResetEffects(C: Config, h: UsbState)
    requires C.Valid() && Shaped(h)
    ensures var r := ResetSpec(C, h);
      && r.cntr == ResetCntr(C.suspendEvent, C.wakeupEvent, C.errorEvent, C.sofEvent)
      && r.btable == 0
      && r.dscr[0].addrTx == C.epBufAddr
      && r.dscr[0].addrRx == C.epBufAddr + C.maxPacket0
      && RxCapacity(r.dscr[0].countRx) == C.maxPacket0
      && r.freeBufAddr == r.dscr[0].addrRx + C.maxPacket0 <= PmaBytes
      && r.epReg[0] & !EpToggle == EpControl
      && r.epReg[0] & EpToggle == (h.epReg[0] ^ EpRxValid) & EpToggle
      && (h.epReg[0] & EpToggle == 0 ==> r.epReg[0] == EpControl | EpRxValid)
      && r.daddr & DaddrEf == DaddrEf && r.daddr & DaddrAdd == 0
      && (forall i :: 1 <= i < 16 ==> r.epReg[i] == h.epReg[i] && r.dscr[i] == h.dscr[i])
      && r.dscr[0].countTx == h.dscr[0].countTx
      && r.fnr == h.fnr && r.connected == h.connected
  {
    CountRxRoundTrip(C.maxPacket0);
  }

  /** USB_Suspend. */
  function SuspendSpec(h: UsbState): UsbState {
    h.(cntr := SuspendCntr(h.cntr))
  }

  /** USB_WakeUp. */
  function WakeUpSpec(h: UsbState): UsbState {
    h.(cntr := WakeUpCntr(h.cntr))
  }

  /** USB_SetAddress: a 7-bit address lands in the address field with the device enabled. */
  function SetAddressSpec(h: UsbState, adr: bv16): (r: UsbState)
    ensures adr & !DaddrAdd == 0 ==> r.daddr & DaddrAdd == adr && r.daddr & DaddrEf == DaddrEf
    ensures r.(daddr := h.daddr) == h
  {
    h.(daddr := DaddrEf | adr)
  }

  /** The EP_TYPE value USB_ConfigEP picks for the transfer type in bits 1..0 of bmAttributes. */
  function EpTypeOf(bmAttributes: bv8): (t: bv16)
    ensures t & !EpType == 0
  {
    var tt := bmAttributes & UsbEndpointTypeMask;
    if tt == UsbEndpointTypeControl then EpControl
    else if tt == UsbEndpointTypeIsochronous then EpIsochronous
    else if tt == UsbEndpointTypeBulk then EpBulk
    else assert tt == UsbEndpointTypeInterrupt; EpInterrupt
  }

  /** The endpoint address (bits 3..0 of bEndpointAddress) as written to EPnR. */
  function DescAddr(d: EndpointDescriptor): (ea: bv16)
    ensures ea & !EpEa == 0
  {
    (d.bEndpointAddress & 0x0F) as bv16
  }

  /** The endpoint register USB_ConfigEP writes. */
  function DescIndex(d: EndpointDescriptor): (n: nat)
    ensures n < 16
  {
    EpIndex(d.bEndpointAddress as bv32)
  }

  predicate DescIsIn(d: EndpointDescriptor) {
    d.bEndpointAddress & UsbEndpointDirectionMask != 0
  }

  /** Whether USB_ConfigEP adds EP_KIND: a bulk endpoint whose bit is set in USB_DBL_BUF_EP. */
  predicate WantsKind(C: Config, d: EndpointDescriptor) {
    d.bmAttributes & UsbEndpointTypeMask == UsbEndpointTypeBulk
    && C.dblBufEp & ((1 as bv16) << DescAddr(d)) != 0
  }

  /** The bytes USB_ConfigEP reserves for the buffer of `d`. */
  function DescBufSize(d: EndpointDescriptor): nat {
    BufSize(DescIsIn(d), d.wMaxPacketSize)
  }

  /** The buffer descriptor entry after USB_ConfigEP places the buffer of `d` at
      PMA byte `addr`. */
  function ConfigEpDscr(cur: BufDscr, d: EndpointDescriptor, addr: nat): BufDscr {
    if DescIsIn(d) then cur.(addrTx := addr)
    else cur.(addrRx := addr, countRx := CountRxWord(DescBufSize(d)))
  }

  /** USB_ConfigEP: only the endpoint's register and descriptor entry and the
      allocator cursor change; ConfigEpEffects states how. */
  function ConfigEpSpec(C: Config, h: UsbState, d: EndpointDescriptor): (r: UsbState)
    requires Shaped(h)
    ensures Shaped(r)
    ensures r.(freeBufAddr := h.freeBufAddr, dscr := h.dscr, epReg := h.epReg) == h
  {
    var num := DescIndex(d);
    h.(dscr := h.dscr[num := ConfigEpDscr(h.dscr[num], d, h.freeBufAddr)],
       freeBufAddr := h.freeBufAddr + DescBufSize(d),
       epReg := h.epReg[num := EpWrite(h.epReg[num],
                 ConfigWord(EpTypeOf(d.bmAttributes), WantsKind(C, d), DescAddr(d)))])
  }

  /** USB_ConfigEP gives the endpoint a buffer, for its direction, that starts at
      the old allocator cursor and is at least wMaxPacketSize long, and moves the
      cursor past it; for an OUT endpoint COUNT_RX encodes a capacity of exactly
      the reserved size. The endpoint register gets the type, EP_KIND exactly for a
      double-buffered bulk endpoint and the address from the descriptor, with its
      CTR flags and SETUP cleared and its STAT and DTOG bits kept. No other
      endpoint changes. */
  lemma ConfigEpEffects(C: Config, h: UsbState, d: EndpointDescriptor)
    requires Shaped(h)
    requires h.freeBufAddr + DescBufSize(d) <= PmaBytes
    ensures var r := ConfigEpSpec(C, h, d); var n := DescIndex(d);
      && r.freeBufAddr == h.freeBufAddr + DescBufSize(d) >= h.freeBufAddr + d.wMaxPacketSize
      && (DescIsIn(d) ==> r.dscr[n] == h.dscr[n].(addrTx := h.freeBufAddr))
      && (!DescIsIn(d) ==> && r.dscr[n].addrRx == h.freeBufAddr
                           && RxCapacity(r.dscr[n].countRx) == DescBufSize(d)
                           && r.dscr[n].addrTx == h.dscr[n].addrTx
                           && r.dscr[n].countTx == h.dscr[n].countTx)
      && r.epReg[n] & EpEa == DescAddr(d)
      && r.epReg[n] & EpType == EpTypeOf(d.bmAttributes)
      && (r.epReg[n] & EpKind != 0) == WantsKind(C, d)
      && r.epReg[n] & (EpCtr | EpSetup) == 0
      && r.epReg[n] & EpToggle == h.epReg[n] & EpToggle
      && (forall i :: 0 <= i < 16 && i != n ==> r.epReg[i] == h.epReg[i] && r.dscr[i] == h.dscr[i])
  {
    var n := DescIndex(d);
    var w := ConfigWriteEffect(h.epReg[n], EpTypeOf(d.bmAttributes), WantsKind(C, d), DescAddr(d));
    if !DescIsIn(d) {
      BufSizeEncodable(d.wMaxPacketSize);
      CountRxRoundTrip(DescBufSize(d));
    }
  }

  /** The byte count USB_ReadEP reports: the COUNT field of COUNT_RX. */
  function ReadCount(h: UsbState, epNum: bv32): nat
    requires Shaped(h)
  {
    h.dscr[EpIndex(epNum)].countRx % CountModulus
  }

  /** USB_ReadEP's buffer lies inside the PMA. */
  predicate ReadFits(h: UsbState, epNum: bv32)
    requires Shaped(h)
  {
    h.dscr[EpIndex(epNum)].addrRx / 2 + HalfWords(ReadCount(h, epNum)) <= PmaWords
  }

  /** The bytes USB_ReadEP copies out: whole half-words covering the count. */
  function ReadBytes(h: UsbState, epNum: bv32): (b: seq<bv8>)
    requires Shaped(h) && ReadFits(h, epNum)
    ensures |b| == 2 * HalfWords(ReadCount(h, epNum))
  {
    var n := EpIndex(epNum);
    Unpack(Load(h.pma, h.dscr[n].addrRx / 2, HalfWords(ReadCount(h, epNum))))
  }

  /** USB_WriteEP's buffer lies inside the PMA. */
  predicate WriteFits(h: UsbState, epNum: bv32, cnt: nat)
    requires Shaped(h)
  {
    h.dscr[EpIndex(epNum)].addrTx / 2 + HalfWords(cnt) <= PmaWords
  }

  /** USB_WriteEP: the bytes go to the endpoint's transmit buffer in whole
      half-words, COUNT_TX becomes the byte count, and transmission is armed. */
  function WriteEpSpec(h: UsbState, epNum: bv32, data: seq<bv8>, cnt: nat): (r: UsbState)
    requires Shaped(h) && WriteFits(h, epNum, cnt) && 2 * HalfWords(cnt) <= |data|
    ensures Shaped(r)
  {
    var n := EpIndex(epNum);
    var filled := h.(pma := Store(h.pma, h.dscr[n].addrTx / 2, Pack(data, HalfWords(cnt))),
                     dscr := h.dscr[n := h.dscr[n].(countTx := cnt)]);
    EpStatusSpec(filled, epNum, EpTxValid)
  }

  /** Loopback: after USB_WriteEP writes `cnt` bytes, a USB_ReadEP whose receive
      buffer is the same PMA region and whose COUNT_RX holds `cnt` returns the
      first `cnt` bytes unchanged. */
  lemma WriteThenRead(h: UsbState, epIn: bv32, data: seq<bv8>, cnt: nat, h2: UsbState, epOut: bv32)
    requires Shaped(h) && WriteFits(h, epIn, cnt) && 2 * HalfWords(cnt) <= |data|
    requires Shaped(h2) && h2.pma == WriteEpSpec(h, epIn, data, cnt).pma
    requires h2.dscr[EpIndex(epOut)].addrRx == h.dscr[EpIndex(epIn)].addrTx
    requires h2.dscr[EpIndex(epOut)].countRx % CountModulus == cnt
    ensures ReadFits(h2, epOut)
    ensures ReadBytes(h2, epOut)[..cnt] == data[..cnt]
  {
    StoreLoadRoundTrip(h.pma, h.dscr[EpIndex(epIn)].addrTx / 2, data, cnt);
  }

  /** USB_GetFrame: the frame number field of FNR. */
  function FrameNumber(h: UsbState): (f: bv16)
    ensures f & !FnrFn == 0 && f & FnrFn == h.fnr & FnrFn
  {
    h.fnr & FnrFn
  }

  /** The handler calls for one endpoint whose register held `val` when the
      interrupt handler read it: SETUP or OUT for a completed reception, then IN
      for a completed transmission, and none without a handler. */
  function EpEvents(C: Config, num: nat, val: bv16): seq<Event>
    requires |C.handlers| == 16 && num < 16
  {
    RxEvents(C, num, val) + TxEvents(C, num, val)
  }

  /** The calls for one endpoint: at most two, all to that endpoint's handler and
      only when it has one; IN exactly for a completed transmission, SETUP or OUT
      exactly for a completed reception as the SETUP bit says, and IN last. */
  lemma EpEventsCalls(C: Config, num: nat, val: bv16)
    requires |C.handlers| == 16 && num < 16
    ensures var es := EpEvents(C, num, val);
      && |es| <= 2
      && (forall e :: e in es ==> e.EpCallback? && e.ep == num && C.handlers[num])
      && ((EpCallback(num, In) in es) <==> C.handlers[num] && val & EpCtrTx != 0)
      && ((EpCallback(num, Setup) in es)
            <==> C.handlers[num] && val & EpCtrRx != 0 && val & EpSetup != 0)
      && ((EpCallback(num, Out) in es)
            <==> C.handlers[num] && val & EpCtrRx != 0 && val & EpSetup == 0)
      && (|es| == 2 ==> es[1] == EpCallback(num, In) && es[0].evt != In)
  {
    var es := EpEvents(C, num, val);
    assert es == RxEvents(C, num, val) + TxEvents(C, num, val);
  }

  /** The handler call for a completed reception: SETUP or OUT. */
  function RxEvents(C: Config, num: nat, val: bv16): seq<Event>
    requires |C.handlers| == 16 && num < 16
  {
    if val & EpCtrRx != 0 && C.handlers[num]
    then [EpCallback(num, if val & EpSetup != 0 then Setup else Out)] else []
  }

  /** The handler call for a completed transmission: IN. */
  function TxEvents(C: Config, num: nat, val: bv16): seq<Event>
    requires |C.handlers| == 16 && num < 16
  {
    if val & EpCtrTx != 0 && C.handlers[num] then [EpCallback(num, In)] else []
  }

  /** Endpoint registers and handler calls after servicing one endpoint. */
  datatype Serviced = Serviced(regs: seq<bv16>, events: seq<Event>)

  /** One pass of the interrupt handler's endpoint loop on endpoint `num`: exactly
      the CTR flags of that endpoint's register are cleared, and the handler calls
      follow what the register held when it was read. */
  function ServiceEp(C: Config, regs: seq<bv16>, num: nat): (r: Serviced)
    requires |regs| == 16 && num < 16 && |C.handlers| == 16
    ensures r.regs == regs[num := CtrClear(regs[num])]
    ensures r.events == EpEvents(C, num, regs[num])
  {
    Serviced(regs[num := CtrServiced(regs[num])], EpEvents(C, num, regs[num]))
  }


  /** State left by the interrupt handler's endpoint loop. */
  datatype Drained = Drained(regs: seq<bv16>, istr: Istr, events: seq<Event>)

  /** The endpoint loop of the interrupt handler. `raised` lists the values the
      hardware presents in ISTR at successive evaluations of the loop condition;
      once it is used up, ISTR holds what the handler last wrote to it. */
  function Drain(C: Config, regs: seq<bv16>, istr: Istr, raised: seq<Istr>): (d: Drained)
    requires |regs| == 16 && |C.handlers| == 16
    ensures |d.regs| == 16
    decreases |raised|, if Ctr in istr.flags then 1 else 0
  {
    var cur := if raised != [] then raised[0] else istr;
    var rest := if raised != [] then raised[1..] else [];
    if Ctr !in cur.flags then Drained(regs, cur, [])
    else
      var sv := ServiceEp(C, regs, cur.epId);
      var d := Drain(C, sv.regs, IstrAck(cur, Ctr), rest);
      Drained(d.regs, d.istr, sv.events + d.events)
  }

  /** The endpoint loop ends only with no correct-transfer flag in ISTR; when the
      hardware raises nothing new, the other flags are those it started with. */
  lemma {:induction false} DrainQuiet(C: Config, regs: seq<bv16>, istr: Istr, raised: seq<Istr>)
    requires |regs| == 16 && |C.handlers| == 16
    ensures Ctr !in Drain(C, regs, istr, raised).istr.flags
    ensures raised == [] ==> Drain(C, regs, istr, raised).istr.flags == istr.flags - {Ctr}
    decreases |raised|, if Ctr in istr.flags then 1 else 0
  {
    var cur := if raised != [] then raised[0] else istr;
    var rest := if raised != [] then raised[1..] else [];
    if Ctr in cur.flags {
      var sv := ServiceEp(C, regs, cur.epId);
      DrainQuiet(C, sv.regs, IstrAck(cur, Ctr), rest);
    }
  }

  /** `after` holds each register of `before` either unchanged or with exactly its
      CTR flags cleared. */
  predicate OnlyCtrCleared(before: seq<bv16>, after: seq<bv16>)
    requires |before| == 16 && |after| == 16
  {
    forall i :: 0 <= i < 16 ==> after[i] == before[i] || after[i] == CtrClear(before[i])
  }

  lemma OnlyCtrClearedAfterService(regs: seq<bv16>, num: nat, mid: seq<bv16>, after: seq<bv16>)
    requires |regs| == 16 && num < 16 && |after| == 16
    requires mid == regs[num := CtrClear(regs[num])]
    requires OnlyCtrCleared(mid, after)
    ensures OnlyCtrCleared(regs, after)
  {
    forall i | 0 <= i < 16
      ensures after[i] == regs[i] || after[i] == CtrClear(regs[i])
    {
      CtrClearedTwice(regs[i], i == num, mid[i], after[i]);
    }
  }

  /** The endpoint loop leaves every endpoint register either as it was or with
      exactly its CTR flags cleared. */
  lemma {:induction false} DrainOnlyClearsCtr(C: Config, regs: seq<bv16>, istr: Istr, raised: seq<Istr>)
    requires |regs| == 16 && |C.handlers| == 16
    ensures OnlyCtrCleared(regs, Drain(C, regs, istr, raised).regs)
    decreases |raised|, if Ctr in istr.flags then 1 else 0
  {
    var cur := if raised != [] then raised[0] else istr;
    var rest := if raised != [] then raised[1..] else [];
    if Ctr in cur.flags {
      var sv := ServiceEp(C, regs, cur.epId);
      DrainOnlyClearsCtr(C, sv.regs, IstrAck(cur, Ctr), rest);
      OnlyCtrClearedAfterService(regs, cur.epId, sv.regs, Drain(C, sv.regs, IstrAck(cur, Ctr), rest).regs);
    }
  }

  /** Every call the endpoint loop makes goes to an endpoint that has a handler. */
  lemma {:induction false} DrainCallsHandlers(C: Config, regs: seq<bv16>, istr: Istr, raised: seq<Istr>)
    requires |regs| == 16 && |C.handlers| == 16
    ensures forall e :: e in Drain(C, regs, istr, raised).events ==>
      e.EpCallback? && e.ep < 16 && C.handlers[e.ep]
    decreases |raised|, if Ctr in istr.flags then 1 else 0
  {
    var cur := if raised != [] then raised[0] else istr;
    var rest := if raised != [] then raised[1..] else [];
    if Ctr in cur.flags {
      var sv := ServiceEp(C, regs, cur.epId);
      EpEventsCalls(C, cur.epId, regs[cur.epId]);
      DrainCallsHandlers(C, sv.regs, IstrAck(cur, Ctr), rest);
    }
  }

  /** Two endpoints flagged one after the other are both serviced in one
      invocation: the loop makes the calls for the first, then for the second, and
      clears the CTR flags of both. */
  lemma DrainTwoEndpoints(C: Config, regs: seq<bv16>, istr: Istr, s1: Istr, s2: Istr)
    requires |regs| == 16 && |C.handlers| == 16
    requires Ctr in s1.flags && Ctr in s2.flags
    requires s1.epId != s2.epId
    ensures var n1, n2 := s1.epId, s2.epId;
      var d := Drain(C, regs, istr, [s1, s2]);
      && d.events == EpEvents(C, n1, regs[n1]) + EpEvents(C, n2, regs[n2])
      && d.regs == regs[n1 := CtrClear(regs[n1])][n2 := CtrClear(regs[n2])]
      && d.istr == IstrAck(s2, Ctr)
  {
    var n1, n2 := s1.epId, s2.epId;
    var sv1 := ServiceEp(C, regs, n1);
    assert [s1, s2][1..] == [s2];
    var sv2 := ServiceEp(C, sv1.regs, n2);
    assert [s2][1..] == [];
    var d2 := Drain(C, sv2.regs, IstrAck(s2, Ctr), []);
    assert d2 == Drained(sv2.regs, IstrAck(s2, Ctr), []);
    assert Drain(C, sv1.regs, IstrAck(s1, Ctr), [s2]) == Drained(sv2.regs, IstrAck(s2, Ctr), sv2.events);
  }

  /** The call `e` when it is made. */
  function Logged(made: bool, e: Event): seq<Event> {
    if made then [e] else []
  }

  /** The ISTR flags `flags` after `f` is acknowledged, if it is. */
  function Acked(flags: set<IstrFlag>, acked: bool, f: IstrFlag): set<IstrFlag> {
    if acked then flags - {f} else flags
  }

  /** The routine the interrupt handler runs for a bus condition. */
  datatype Routine = NoRoutine | RunReset | RunSuspend | RunWakeUp

  /** The state after the routine `rt`. */
  function Run(C: Config, h: UsbState, rt: Routine): (r: UsbState)
    requires C.Valid() && Shaped(h)
    ensures Shaped(r) && r.pma == h.pma && r.log == h.log && r.istr.epId == h.istr.epId
    ensures rt == RunReset ==> r.istr.flags == {}
    ensures rt != RunReset ==> r.istr == h.istr && r.epReg == h.epReg && r.dscr == h.dscr
  {
    match rt
    case NoRoutine => h
    case RunReset => ResetSpec(C, h)
    case RunSuspend => SuspendSpec(h)
    case RunWakeUp => WakeUpSpec(h)
  }

  /** One bus condition of the interrupt handler: when `flagged`, the routine
      `rt` runs, `e` is logged when `on`, and `f` is acknowledged in ISTR;
      otherwise nothing changes. */
  function Handle(C: Config, h: UsbState, flagged: bool, rt: Routine, f: IstrFlag, on: bool, e: Event)
    : (r: UsbState)
    requires C.Valid() && Shaped(h)
    ensures Shaped(r) && r.pma == h.pma && r.istr.epId == h.istr.epId
    ensures r.log == h.log + Logged(flagged && on, e)
    ensures !flagged ==> r == h
    ensures flagged && rt == RunReset ==> r.istr.flags == {}
    ensures rt != RunReset ==> r.istr.flags == Acked(h.istr.flags, flagged, f)
    ensures rt != RunReset ==> r.epReg == h.epReg && r.dscr == h.dscr
  {
    if flagged then
      var g := Run(C, h, rt);
      g.(log := g.log + Logged(on, e), istr := IstrAck(g.istr, f))
    else h
  }

  /** The calls the bus part of the interrupt handler makes for an ISTR value, in order. */
  function BusEvents(C: Config, s: Istr): seq<Event> {
    LinkEvents(C, s.flags) + FrameErrorEvents(C, s.flags)
  }

  /** The calls made for reset, suspend and wakeup, in that order. */
  function LinkEvents(C: Config, s: set<IstrFlag>): seq<Event> {
    Logged(Reset in s && C.resetEvent, ResetEvent)
    + Logged(Susp in s && C.suspendEvent, SuspendEvent)
    + Logged(Wkup in s && C.wakeupEvent, WakeUpEvent)
  }

  /** The calls made for start of frame, PMA overrun and error, in that order. */
  function FrameErrorEvents(C: Config, s: set<IstrFlag>): seq<Event> {
    Logged(Sof in s && C.sofEvent, SofEvent)
    + Logged(C.errorEvent && PmaOvr in s, ErrorEvent(1))
    + Logged(C.errorEvent && Err in s, ErrorEvent(0))
  }

  /** The flags the bus part of the interrupt handler acknowledges. */
  function BusAcked(errorEvent: bool): set<IstrFlag> {
    {Reset, Susp, Wkup, Sof} + (if errorEvent then {PmaOvr, Err} else {})
  }

  lemma AppendThree(l: seq<Event>, a: seq<Event>, b: seq<Event>, c: seq<Event>)
    ensures l + a + b + c == l + (a + b + c)
  {
  }

  /** The first three bus conditions of the interrupt handler, for the ISTR value
      `h.istr` read on entry: reset, suspend and wakeup. */
  function BusLinkStates(C: Config, h: UsbState): (r: UsbState)
    requires C.Valid() && Shaped(h)
    ensures Shaped(r) && r.pma == h.pma && r.istr.epId == h.istr.epId
    ensures r.log == h.log + LinkEvents(C, h.istr.flags)
    ensures Reset in h.istr.flags ==> r.istr.flags == {}
    ensures Reset !in h.istr.flags ==> r.istr.flags == h.istr.flags - {Susp, Wkup}
    ensures Reset !in h.istr.flags ==> r.epReg == h.epReg && r.dscr == h.dscr
  {
    var s := h.istr.flags;
    var h1 := Handle(C, h, Reset in s, RunReset, Reset, C.resetEvent, ResetEvent);
    var h2 := Handle(C, h1, Susp in s, RunSuspend, Susp, C.suspendEvent, SuspendEvent);
    var h3 := Handle(C, h2, Wkup in s, RunWakeUp, Wkup, C.wakeupEvent, WakeUpEvent);
    AppendThree(h.log, Logged(Reset in s && C.resetEvent, ResetEvent),
                Logged(Susp in s && C.suspendEvent, SuspendEvent),
                Logged(Wkup in s && C.wakeupEvent, WakeUpEvent));
    h3
  }

  /** The last three bus conditions of the interrupt handler, for the ISTR value
      `s` read on entry: start of frame, and (when error events are configured)
      PMA overrun and error. None of them touches the endpoints. */
  function BusFrameErrors(C: Config, h: UsbState, s: set<IstrFlag>): (r: UsbState)
    requires C.Valid() && Shaped(h)
    ensures Shaped(r) && r.pma == h.pma && r.istr.epId == h.istr.epId
    ensures r.epReg == h.epReg && r.dscr == h.dscr
    ensures r.log == h.log + FrameErrorEvents(C, s)
    ensures r.istr.flags == h.istr.flags
                            - (if Sof in s then {Sof} else {})
                            - (if C.errorEvent && PmaOvr in s then {PmaOvr} else {})
                            - (if C.errorEvent && Err in s then {Err} else {})
  {
    var h4 := Handle(C, h, Sof in s, NoRoutine, Sof, C.sofEvent, SofEvent);
    var h5 := Handle(C, h4, C.errorEvent && PmaOvr in s, NoRoutine, PmaOvr, true, ErrorEvent(1));
    var h6 := Handle(C, h5, C.errorEvent && Err in s, NoRoutine, Err, true, ErrorEvent(0));
    AppendThree(h.log, Logged(Sof in s && C.sofEvent, SofEvent),
                Logged(C.errorEvent && PmaOvr in s, ErrorEvent(1)),
                Logged(C.errorEvent && Err in s, ErrorEvent(0)));
    h6
  }

  /** The part of the interrupt handler before the endpoint loop: each bus
      condition flagged in the ISTR value read on entry is handled, reported and
      acknowledged, in the order reset, suspend, wakeup, start of frame, and (when
      error events are configured) PMA overrun and error. After a reset ISTR is
      clear, since USB_Reset writes 0 to it; otherwise exactly the handled flags are
      cleared and every other flag, the correct-transfer flag among them, stays.
      Without a reset the endpoint registers and descriptors are untouched. */
  function BusSpec(C: Config, h: UsbState): (r: UsbState)
    requires C.Valid() && Shaped(h)
    ensures Shaped(r)
    ensures r.log == h.log + BusEvents(C, h.istr)
    ensures Reset in h.istr.flags ==> r.istr.flags == {}
    ensures Reset !in h.istr.flags ==> r.istr.flags == h.istr.flags - BusAcked(C.errorEvent)
    ensures r.istr.epId == h.istr.epId
    ensures Reset !in h.istr.flags ==> r.epReg == h.epReg && r.dscr == h.dscr
    ensures r.pma == h.pma
  {
    var s := h.istr.flags;
    assert h.log + LinkEvents(C, s) + FrameErrorEvents(C, s)
        == h.log + (LinkEvents(C, s) + FrameErrorEvents(C, s));
    BusAckedFlags(s, C.errorEvent);
    BusFrameErrors(C, BusLinkStates(C, h), s)
  }

  /** Acknowledging, one by one, each bus flag that is set acknowledges all of them. */
  lemma BusAckedFlags(s: set<IstrFlag>, errorEvent: bool)
    ensures Reset !in s ==>
      s - {Susp, Wkup}
        - (if Sof in s then {Sof} else {})
        - (if errorEvent && PmaOvr in s then {PmaOvr} else {})
        - (if errorEvent && Err in s then {Err} else {})
      == s - BusAcked(errorEvent)
  {
  }

  /** USB_LP_CAN1_RX0_IRQHandler: the bus conditions, then the endpoint loop. The
      calls are the bus events of the ISTR value read on entry in their fixed
      order, then the endpoint handler calls of the loop, and no transfer is left
      flagged in ISTR. */
  function IsrSpec(C: Config, h: UsbState, raised: seq<Istr>): (r: UsbState)
    requires C.Valid() && Shaped(h)
    ensures Shaped(r)
    ensures r.log == h.log + BusEvents(C, h.istr)
                   + Drain(C, BusSpec(C, h).epReg, BusSpec(C, h).istr, raised).events
    ensures Ctr !in r.istr.flags
  {
    var b := BusSpec(C, h);
    var d := Drain(C, b.epReg, b.istr, raised);
    DrainQuiet(C, b.epReg, b.istr, raised);
    b.(epReg := d.regs, istr := d.istr, log := b.log + d.events)
  }

  /** An interrupt with only the reset condition flagged and no further status
      from the hardware: the peripheral ends as USB_Reset leaves it, ISTR is clear,
      no endpoint is serviced, and the only call is the reset event when configured. */
  lemma IsrResetOnly(C: Config, h: UsbState)
    requires C.Valid() && Shaped(h)
    requires h.istr.flags == {Reset}
    ensures IsrSpec(C, h, [])
         == ResetSpec(C, h).(log := h.log + (if C.resetEvent then [ResetEvent] else []))
    ensures IsrSpec(C, h, []).istr.flags == {}
  {
    var h1 := Handle(C, h, true, RunReset, Reset, C.resetEvent, ResetEvent);
    assert BusLinkStates(C, h) == h1;
    assert BusSpec(C, h) == h1;
    assert Drain(C, h1.epReg, h1.istr, []) == Drained(h1.epReg, h1.istr, []);
  }
}
