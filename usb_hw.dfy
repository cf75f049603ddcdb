/** The USB hardware layer of usbhw.c run on the peripheral itself: the registers,
    the buffer descriptor table and the packet memory are fields and arrays of one
    object, and each routine is a method that updates them the way the firmware
    does, proved to leave the state its function in UsbSpec describes. */
module UsbHw {
  import opened UsbRegs
  import opened UsbPma
  import opened UsbSpec

  /** The USB peripheral together with the driver's globals. */
  class UsbDevice {
    /** The compile-time configuration the driver was built with. */
    const C: Config
    var istr: Istr                 // ISTR
    var cntr: bv16                 // CNTR
    var daddr: bv16                // DADDR
    var btable: bv16               // BTABLE
    var fnr: bv16                  // FNR
    var connected: bool            // USB_Connected
    const epReg: array<bv16>       // EP0R .. EP15R
    const dscr: array<BufDscr>     // the buffer descriptor table
    const pma: array<bv16>         // packet memory, in half-words
    var freeBufAddr: nat           // FreeBufAddr
    var log: seq<Event>            // the calls made into the layer above
    /** Where the allocator started after the last USB_Reset, and the buffers it
        has handed out since, in order. */
    ghost var allocBase: nat
    ghost var allocs: seq<Region>

    ghost predicate Valid()
      reads this`allocs, this`allocBase, this`freeBufAddr
    {
      && C.Valid()
      && epReg.Length == 16 && dscr.Length == 16 && pma.Length == PmaWords
      && epReg != pma && dscr as object != epReg && dscr as object != pma
      && Tiled(allocs, allocBase, freeBufAddr)
    }

    ghost function State(): UsbState
      reads this, epReg, dscr, pma
    {
      UsbState(istr, cntr, daddr, btable, fnr, connected,
               epReg[..], dscr[..], pma[..], freeBufAddr, log)
    }

    /** The peripheral out of power-on reset: every register 0 except CNTR, which
        holds FRES and PDWN, and the allocator cursor at 0. */
    constructor (config: Config)
      requires config.Valid()
      ensures Valid() && C == config
      ensures fresh(epReg) && fresh(dscr) && fresh(pma)
      ensures istr.flags == {} && cntr == 0x0003 && daddr == 0 && freeBufAddr == 0
      ensures !connected && log == [] && allocs == []
      ensures forall i :: 0 <= i < 16 ==> epReg[i] == 0
    {
      C := config;
      istr := Istr({}, 0);
      cntr := 0x0003;
      daddr := 0;
      btable := 0;
      fnr := 0;
      connected := false;
      epReg := new bv16[16](_ => 0);
      dscr := new BufDscr[16](_ => BufDscr(0, 0, 0, 0));
      pma := new bv16[PmaWords](_ => 0);
      freeBufAddr := 0;
      log := [];
      allocBase := 0;
      allocs := [];
    }

    /** A store of `w` to the endpoint register EPnR: the toggle bits flip where
        `w` has a 1, the CTR flags can only be cleared, the rest is written. */
    method StoreEpReg(n: nat, w: bv16)
      requires Valid() && n < 16
      modifies epReg
      ensures State() == old(State()).(epReg := old(epReg[..])[n := EpWrite(old(epReg[n]), w)])
    {
      epReg[n] := EpWrite(epReg[n], w);
    }

    /** A store of `e` to entry `n` of the buffer descriptor table. */
    method StoreDscr(n: nat, e: BufDscr)
      requires Valid() && n < 16
      modifies dscr
      ensures State() == old(State()).(dscr := old(dscr[..])[n := e])
    {
      dscr[n] := e;
    }

    /** EP_Reset. */
    method EpReset(epNum: bv32)
      requires Valid()
      modifies epReg
      ensures Valid()
      ensures State() == EpResetSpec(old(State()), epNum)
    {
      var num := EpIndex(epNum);
      var val := epReg[num];
      if IsIn(epNum) {
        StoreEpReg(num, TxResetWord(val));
      } else {
        StoreEpReg(num, RxResetWord(val));
      }
    }

    /** EP_Status. */
    method EpStatus(epNum: bv32, stat: bv16)
      requires Valid()
      modifies epReg
      ensures Valid()
      ensures State() == EpStatusSpec(old(State()), epNum, stat)
    {
      var num := EpIndex(epNum);
      var val := epReg[num];
      if IsIn(epNum) {
        StoreEpReg(num, TxStatusWord(val, stat));
      } else {
        StoreEpReg(num, RxStatusWord(val, stat));
      }
    }

    /** USB_Connect. */
    method Connect(con: bool)
      requires Valid()
      modifies this
      ensures Valid()
      ensures State() == ConnectSpec(old(State()), con)
      ensures allocs == old(allocs) && allocBase == old(allocBase)
    {
      cntr := CntrFres;
      istr := IstrClear(istr);
      if con {
        cntr := CntrResetm;
      } else {
        cntr := CntrFres | CntrLpMode | CntrFsusp;
        connected := false;
      }
      assert epReg[..] == old(epReg[..]) && dscr[..] == old(dscr[..]) && pma[..] == old(pma[..]);
    }

    /** Sets the allocator cursor FreeBufAddr to `base`, with nothing allocated. */
    method RestartAlloc(base: nat)
      requires Valid()
      modifies this`freeBufAddr, this`allocs, this`allocBase
      ensures Valid() && allocBase == base && allocs == []
      ensures State() == old(State()).(freeBufAddr := base)
    {
      freeBufAddr := base;
      allocBase, allocs := base, [];
    }

    /** `FreeBufAddr += size`: the `size` bytes at the cursor become the next
        allocated region. */
    method Advance(size: nat)
      requires Valid()
      modifies this`freeBufAddr, this`allocs
      ensures Valid() && allocBase == old(allocBase)
      ensures allocs == old(allocs) + [Region(old(freeBufAddr), size)]
      ensures State() == old(State()).(freeBufAddr := old(freeBufAddr) + size)
    {
      TiledBump(allocs, allocBase, freeBufAddr, size);
      allocs := allocs + [Region(freeBufAddr, size)];
      freeBufAddr := freeBufAddr + size;
    }

    /** USB_Reset. The allocator restarts at EP_BUF_ADDR with the two buffers of
        endpoint 0 as its first regions. */
    method Reset()
      requires Valid()
      modifies this, epReg, dscr
      ensures Valid()
      ensures State() == ResetSpec(C, old(State()))
      ensures allocBase == C.epBufAddr
      ensures allocs == [Region(C.epBufAddr, C.maxPacket0),
                         Region(C.epBufAddr + C.maxPacket0, C.maxPacket0)]
    {
      istr := IstrClear(istr);
      cntr := ResetCntr(C.suspendEvent, C.wakeupEvent, C.errorEvent, C.sofEvent);
      assert epReg[..] == old(epReg[..]) && dscr[..] == old(dscr[..]) && pma[..] == old(pma[..]);
      ResetEndpoint0();
      ghost var arrays := (epReg[..], dscr[..], pma[..]);
      daddr := DaddrEf | 0;
      assert (epReg[..], dscr[..], pma[..]) == arrays;
    }

    /** The part of USB_Reset from `FreeBufAddr = EP_BUF_ADDR` to the write of
        EPxREG(0). */
    method ResetEndpoint0()
      requires Valid()
      modifies this, epReg, dscr
      ensures Valid()
      ensures State() == old(State()).(
                freeBufAddr := C.epBufAddr + 2 * C.maxPacket0,
                btable := 0,
                dscr := old(dscr[..])[0 := old(dscr[0]).(addrTx := C.epBufAddr,
                            addrRx := C.epBufAddr + C.maxPacket0,
                            countRx := CountRxWord(C.maxPacket0))],
                epReg := old(epReg[..])[0 := EpWrite(old(epReg[0]), EpControl | EpRxValid)])
      ensures allocBase == C.epBufAddr
      ensures allocs == [Region(C.epBufAddr, C.maxPacket0),
                         Region(C.epBufAddr + C.maxPacket0, C.maxPacket0)]
    {
      RestartAlloc(C.epBufAddr);
      btable := 0;
      Ep0Buffers();
      StoreEpReg(0, EpControl | EpRxValid);
    }

    /** The buffers of endpoint 0, one after the other at the cursor, and their
        descriptor table entry. */
    method Ep0Buffers()
      requires Valid() && allocs == []
      modifies this`freeBufAddr, this`allocs, dscr
      ensures Valid() && allocBase == old(allocBase)
      ensures State() == old(State()).(
                freeBufAddr := old(freeBufAddr) + 2 * C.maxPacket0,
                dscr := old(dscr[..])[0 := old(dscr[0]).(addrTx := old(freeBufAddr),
                            addrRx := old(freeBufAddr) + C.maxPacket0,
                            countRx := CountRxWord(C.maxPacket0))])
      ensures allocs == [Region(old(freeBufAddr), C.maxPacket0),
                         Region(old(freeBufAddr) + C.maxPacket0, C.maxPacket0)]
    {
      var d0 := dscr[0].(addrTx := freeBufAddr);
      Advance(C.maxPacket0);
      d0 := d0.(addrRx := freeBufAddr);
      Advance(C.maxPacket0);
      if C.maxPacket0 > 62 {
        d0 := d0.(countRx := OrBlockFlag(C.maxPacket0 * 32 - 1));
      } else {
        d0 := d0.(countRx := C.maxPacket0 * 512);
      }
      StoreDscr(0, d0);
    }

    /** USB_Suspend. */
    method Suspend()
      requires Valid()
      modifies this
      ensures Valid()
      ensures State() == SuspendSpec(old(State()))
      ensures allocs == old(allocs) && allocBase == old(allocBase)
    {
      cntr := cntr | CntrFsusp;
      cntr := cntr | CntrLpMode;
      assert epReg[..] == old(epReg[..]) && dscr[..] == old(dscr[..]) && pma[..] == old(pma[..]);
    }

    /** USB_WakeUp. */
    method WakeUp()
      requires Valid()
      modifies this
      ensures Valid()
      ensures State() == WakeUpSpec(old(State()))
      ensures allocs == old(allocs) && allocBase == old(allocBase)
    {
      cntr := cntr & !CntrFsusp;
      assert epReg[..] == old(epReg[..]) && dscr[..] == old(dscr[..]) && pma[..] == old(pma[..]);
    }

    /** USB_SetAddress. */
    method SetAddress(adr: bv16)
      requires Valid()
      modifies this
      ensures Valid()
      ensures State() == SetAddressSpec(old(State()), adr)
      ensures allocs == old(allocs) && allocBase == old(allocBase)
    {
      daddr := DaddrEf | adr;
      assert epReg[..] == old(epReg[..]) && dscr[..] == old(dscr[..]) && pma[..] == old(pma[..]);
    }

    /** USB_ConfigEP. The buffer it reserves is the next region of the allocator,
        and the endpoint's descriptor entry points at it. */
    method ConfigEp(d: EndpointDescriptor)
      requires Valid()
      requires freeBufAddr + DescBufSize(d) <= PmaBytes
      modifies this, epReg, dscr
      ensures Valid()
      ensures State() == ConfigEpSpec(C, old(State()), d)
      ensures allocBase == old(allocBase)
      ensures allocs == old(allocs) + [Region(old(freeBufAddr), DescBufSize(d))]
    {
      ConfigEpBuffer(d);
      ConfigEpRegister(d);
    }

    /** The buffers handed out since the last USB_Reset never overlap and lie
        between where the allocator started and the cursor, which has never moved
        back. */
    lemma BuffersDisjoint()
      requires Valid()
      ensures allocBase <= freeBufAddr
      ensures forall i, j :: 0 <= i < j < |allocs| ==> allocs[i].End() <= allocs[j].start
      ensures forall i :: 0 <= i < |allocs| ==> allocBase <= allocs[i].start && allocs[i].End() <= freeBufAddr
    {
      TiledDisjoint(allocs, allocBase, freeBufAddr);
    }

    /** The first half of USB_ConfigEP: the buffer of the endpoint's direction at
        the cursor, its size rounded as the hardware needs, and for reception the
        COUNT_RX encoding of that size. */
    method ConfigEpBuffer(d: EndpointDescriptor)
      requires Valid()
      modifies this`freeBufAddr, this`allocs, dscr
      ensures Valid() && allocBase == old(allocBase)
      ensures allocs == old(allocs) + [Region(old(freeBufAddr), DescBufSize(d))]
      ensures State() == old(State()).(
                freeBufAddr := old(freeBufAddr) + DescBufSize(d),
                dscr := old(dscr[..])[DescIndex(d) := ConfigEpDscr(old(dscr[DescIndex(d)]), d,
                                                                   old(freeBufAddr))])
    {
      var num := DescIndex(d);
      var size: nat := d.wMaxPacketSize;
      var e := dscr[num];
      if DescIsIn(d) {
        e := e.(addrTx := freeBufAddr);
        size := RoundEven(size);
      } else {
        e := e.(addrRx := freeBufAddr);
        if size > 62 {
          size := RoundBlocks(size);
          e := e.(countRx := OrBlockFlag(size * 32 - 1));
        } else {
          size := RoundEven(size);
          e := e.(countRx := size * 512);
        }
      }
      StoreDscr(num, e);
      Advance(size);
    }

    /** The second half of USB_ConfigEP: the endpoint register gets the transfer
        type, EP_KIND for a double-buffered bulk endpoint, and the address. */
    method ConfigEpRegister(d: EndpointDescriptor)
      requires Valid()
      modifies epReg
      ensures State() == old(State()).(
                epReg := old(epReg[..])[DescIndex(d) := EpWrite(old(epReg[DescIndex(d)]),
                           ConfigWord(EpTypeOf(d.bmAttributes), WantsKind(C, d), DescAddr(d)))])
    {
      var tt := d.bmAttributes & UsbEndpointTypeMask;
      var typ: bv16;
      var kind := false;
      if tt == UsbEndpointTypeControl {
        typ := EpControl;
      } else if tt == UsbEndpointTypeIsochronous {
        typ := EpIsochronous;
      } else if tt == UsbEndpointTypeBulk {
        typ := EpBulk;
        if C.dblBufEp & ((1 as bv16) << DescAddr(d)) != 0 {
          kind := true;
        }
      } else {
        typ := EpInterrupt;
      }
      StoreEpReg(DescIndex(d), ConfigWord(typ, kind, DescAddr(d)));
    }

    /** USB_EnableEP. */
    method EnableEp(epNum: bv32)
      requires Valid()
      modifies epReg
      ensures Valid()
      ensures State() == EpStatusSpec(old(State()), epNum, EpTxValid | EpRxValid)
    {
      EpStatus(epNum, EpTxValid | EpRxValid);
    }

    /** USB_DisableEP. */
    method DisableEp(epNum: bv32)
      requires Valid()
      modifies epReg
      ensures Valid()
      ensures State() == EpStatusSpec(old(State()), epNum, EpTxDis | EpRxDis)
    {
      EpStatus(epNum, EpTxDis | EpRxDis);
    }

    /** USB_ResetEP. */
    method ResetEp(epNum: bv32)
      requires Valid()
      modifies epReg
      ensures Valid()
      ensures State() == EpResetSpec(old(State()), epNum)
    {
      EpReset(epNum);
    }

    /** USB_SetStallEP. */
    method SetStallEp(epNum: bv32)
      requires Valid()
      modifies epReg
      ensures Valid()
      ensures State() == EpStatusSpec(old(State()), epNum, EpTxStall | EpRxStall)
    {
      EpStatus(epNum, EpTxStall | EpRxStall);
    }

    /** USB_ClrStallEP. */
    method ClrStallEp(epNum: bv32)
      requires Valid()
      modifies epReg
      ensures Valid()
      ensures State() == EpStatusSpec(old(State()), epNum, EpTxValid | EpRxValid)
    {
      EpStatus(epNum, EpTxValid | EpRxValid);
    }

    /** USB_ReadEP: copies the received packet out of the PMA into `buf` in whole
        half-words, arms reception again and returns the byte count. */
    method ReadEp(epNum: bv32, buf: array<bv8>) returns (cnt: nat)
      requires Valid() && ReadFits(State(), epNum)
      requires 2 * HalfWords(ReadCount(State(), epNum)) <= buf.Length
      requires buf as object != epReg && buf as object != dscr && buf as object != pma
      modifies buf, epReg
      ensures Valid()
      ensures cnt == ReadCount(old(State()), epNum)
      ensures buf[..2 * HalfWords(cnt)] == ReadBytes(old(State()), epNum)
      ensures buf[2 * HalfWords(cnt)..] == old(buf[2 * HalfWords(cnt)..])
      ensures State() == EpStatusSpec(old(State()), epNum, EpRxValid)
    {
      var num := EpIndex(epNum);
      cnt := dscr[num].countRx % CountModulus;
      CopyFromPma(dscr[num].addrRx / 2, HalfWords(cnt), buf);
      EpStatus(epNum, EpRxValid);
    }

    /** The copy loop of USB_ReadEP: `n` half-words of the PMA from half-word
        `base` on go to `buf`, low byte first; the rest of `buf` is left alone. */
    method CopyFromPma(base: nat, n: nat, buf: array<bv8>)
      requires Valid() && base + n <= PmaWords && 2 * n <= buf.Length
      requires buf as object != epReg && buf as object != dscr && buf as object != pma
      modifies buf
      ensures buf[..2 * n] == Unpack(Load(pma[..], base, n))
      ensures buf[2 * n..] == old(buf[2 * n..])
    {
      var k := 0;
      while k < n
        invariant k <= n
        invariant forall i :: 0 <= i < k ==>
          buf[2 * i] == LowByte(pma[base + i]) && buf[2 * i + 1] == HighByte(pma[base + i])
        invariant forall j :: 2 * n <= j < buf.Length ==> buf[j] == old(buf[j])
      {
        var w := pma[base + k];
        buf[2 * k] := LowByte(w);
        buf[2 * k + 1] := HighByte(w);
        k := k + 1;
      }
      UnpackedPairs(buf[..2 * n], Load(pma[..], base, n));
    }

    /** USB_WriteEP: copies `cnt` bytes of `buf` into the endpoint's transmit
        buffer in whole half-words, sets COUNT_TX, arms transmission and returns
        the byte count. */
    method WriteEp(epNum: bv32, buf: array<bv8>, cnt: nat) returns (r: nat)
      requires Valid() && WriteFits(State(), epNum, cnt) && 2 * HalfWords(cnt) <= buf.Length
      requires buf as object != epReg && buf as object != dscr && buf as object != pma
      modifies pma, dscr, epReg
      ensures Valid() && r == cnt
      ensures State() == WriteEpSpec(old(State()), epNum, buf[..], cnt)
    {
      var num := EpIndex(epNum);
      CopyToPma(dscr[num].addrTx / 2, HalfWords(cnt), buf);
      StoreDscr(num, dscr[num].(countTx := cnt));
      EpStatus(epNum, EpTxValid);
      r := cnt;
    }

    /** The copy loop of USB_WriteEP: the first `n` byte pairs of `buf` go to the
        PMA as half-words from half-word `base` on. */
    method CopyToPma(base: nat, n: nat, buf: array<bv8>)
      requires Valid() && base + n <= PmaWords && 2 * n <= buf.Length
      requires buf as object != epReg && buf as object != dscr && buf as object != pma
      modifies pma
      ensures State() == old(State()).(pma := Store(old(pma[..]), base, Pack(buf[..], n)))
    {
      var k := 0;
      while k < n
        invariant k <= n
        invariant forall i :: 0 <= i < k ==> pma[base + i] == HalfWord(buf[2 * i], buf[2 * i + 1])
        invariant forall i :: 0 <= i < PmaWords && !(base <= i < base + k) ==> pma[i] == old(pma[i])
      {
        pma[base + k] := HalfWord(buf[2 * k], buf[2 * k + 1]);
        k := k + 1;
      }
      StoredPacked(old(pma[..]), pma[..], base, buf[..], n);
      assert epReg[..] == old(epReg[..]) && dscr[..] == old(dscr[..]);
    }

    /** The end of each branch of the interrupt handler: the call `e` into the
        layer above when `on`, then the write that acknowledges `f` in ISTR. */
    method Report(on: bool, e: Event, f: IstrFlag)
      requires Valid()
      modifies this`log, this`istr
      ensures log == old(log) + Logged(on, e) && istr == IstrAck(old(istr), f)
    {
      if on {
        log := log + [e];
      }
      istr := IstrAck(istr, f);
    }

    /** The reset branch of the interrupt handler, for the flags `s` read on entry. */
    method OnReset(s: set<IstrFlag>)
      requires Valid()
      modifies this, epReg, dscr
      ensures Valid()
      ensures State()
           == Handle(C, old(State()), IstrFlag.Reset in s, RunReset, IstrFlag.Reset, C.resetEvent, ResetEvent)
    {
      if IstrFlag.Reset in s {
        Reset();
        Report(C.resetEvent, ResetEvent, IstrFlag.Reset);
      }
    }

    /** The suspend branch of the interrupt handler. */
    method OnSuspend(s: set<IstrFlag>)
      requires Valid()
      modifies this
      ensures Valid()
      ensures State() == Handle(C, old(State()), Susp in s, RunSuspend, Susp, C.suspendEvent, SuspendEvent)
    {
      if Susp in s {
        Suspend();
        Report(C.suspendEvent, SuspendEvent, Susp);
      }
    }

    /** The wakeup branch of the interrupt handler. */
    method OnWakeUp(s: set<IstrFlag>)
      requires Valid()
      modifies this
      ensures Valid()
      ensures State() == Handle(C, old(State()), Wkup in s, RunWakeUp, Wkup, C.wakeupEvent, WakeUpEvent)
    {
      if Wkup in s {
        WakeUp();
        Report(C.wakeupEvent, WakeUpEvent, Wkup);
      }
    }

    /** The reset, suspend and wakeup branches of the interrupt handler, for the
        ISTR value read on entry. */
    method HandleLinkStates()
      requires Valid()
      modifies this, epReg, dscr
      ensures Valid()
      ensures State() == BusLinkStates(C, old(State()))
    {
      var s := istr.flags;
      OnReset(s);
      OnSuspend(s);
      OnWakeUp(s);
    }

    /** The start-of-frame, PMA overrun and error branches of the interrupt
        handler, for the flags `s` read on entry; the last two exist only when
        error events are configured. */
    method HandleFrameErrors(s: set<IstrFlag>)
      requires Valid()
      modifies this`log, this`istr
      ensures State() == BusFrameErrors(C, old(State()), s)
    {
      if Sof in s {
        Report(C.sofEvent, SofEvent, Sof);
      }
      if C.errorEvent && PmaOvr in s {
        Report(true, ErrorEvent(1), PmaOvr);
      }
      if C.errorEvent && Err in s {
        Report(true, ErrorEvent(0), Err);
      }
    }

    /** One pass of the endpoint loop of the interrupt handler on endpoint `num`:
        each completed transfer flagged in the value read from EPnR is
        acknowledged and reported to the endpoint's handler, if it has one. */
    method ServiceEndpoint(num: nat)
      requires Valid() && num < 16
      modifies this`log, epReg
      ensures State() == old(State()).(epReg := ServiceEp(C, old(epReg[..]), num).regs,
                                       log := old(log) + ServiceEp(C, old(epReg[..]), num).events)
    {
      var val := epReg[num];
      AckReception(num, val);
      AckTransmission(num, val);
    }

    /** The reception part of a pass of the endpoint loop, for the value `val`
        read from EPnR. */
    method AckReception(num: nat, val: bv16)
      requires Valid() && num < 16 && epReg[num] == val
      modifies this`log, epReg
      ensures State() == old(State()).(
                epReg := old(epReg[..])[num := if val & EpCtrRx != 0 then EpWrite(val, CtrAckWord(val, EpCtrRx)) else val],
                log := old(log) + RxEvents(C, num, val))
    {
      if val & EpCtrRx != 0 {
        StoreEpReg(num, CtrAckWord(val, EpCtrRx));
        if C.handlers[num] {
          log := log + [EpCallback(num, if val & EpSetup != 0 then Setup else Out)];
        }
      }
    }

    /** The transmission part of a pass of the endpoint loop, for the value `val`
        read from EPnR before the reception part. */
    method AckTransmission(num: nat, val: bv16)
      requires Valid() && num < 16
      modifies this`log, epReg
      ensures State() == old(State()).(
                epReg := old(epReg[..])[num := if val & EpCtrTx != 0 then EpWrite(old(epReg[num]), CtrAckWord(val, EpCtrTx)) else old(epReg[num])],
                log := old(log) + TxEvents(C, num, val))
    {
      if val & EpCtrTx != 0 {
        StoreEpReg(num, CtrAckWord(val, EpCtrTx));
        if C.handlers[num] {
          log := log + [EpCallback(num, In)];
        }
      }
    }

    /** The endpoint loop of the interrupt handler. `raised` lists the values the
        hardware presents in ISTR at successive reads of the loop condition; once
        it is used up, ISTR holds what the handler last wrote to it. */
    method ServiceEndpoints(raised: seq<Istr>)
      requires Valid()
      modifies this`log, this`istr, epReg
      ensures State() == old(State()).(
                epReg := Drain(C, old(epReg[..]), old(istr), raised).regs,
                istr := Drain(C, old(epReg[..]), old(istr), raised).istr,
                log := old(log) + Drain(C, old(epReg[..]), old(istr), raised).events)
    {
      ghost var goal := Drain(C, epReg[..], istr, raised);
      var rest := raised;
      while true
        invariant Valid()
        invariant Drain(C, epReg[..], istr, rest).regs == goal.regs
        invariant Drain(C, epReg[..], istr, rest).istr == goal.istr
        invariant old(log) + goal.events == log + Drain(C, epReg[..], istr, rest).events
        invariant dscr[..] == old(dscr[..]) && pma[..] == old(pma[..])
        decreases |rest|, if Ctr in istr.flags then 1 else 0
      {
        ghost var regs0, log0, istr0, rest0 := epReg[..], log, istr, rest;
        rest := ReadIstr(rest);
        if Ctr !in istr.flags {
          break;
        }
        ghost var cur := istr;
        AckAndService();
        ghost var sv := ServiceEp(C, regs0, cur.epId);
        ghost var tail := Drain(C, epReg[..], istr, rest);
        assert Drain(C, regs0, istr0, rest0) == Drained(tail.regs, tail.istr, sv.events + tail.events);
        assert log0 + (sv.events + tail.events) == log + tail.events;
      }
    }

    /** The read of ISTR in the loop condition: the next value the hardware
        presents, if any is left. Returns the values still to come. */
    method ReadIstr(raised: seq<Istr>) returns (rest: seq<Istr>)
      requires Valid()
      modifies this`istr
      ensures raised != [] ==> rest == raised[1..] && istr == raised[0]
      ensures raised == [] ==> rest == [] && istr == old(istr)
    {
      rest := raised;
      if raised != [] {
        istr := raised[0];
        rest := raised[1..];
      }
    }

    /** The body of the endpoint loop: acknowledge CTR in ISTR, then service the
        endpoint EP_ID names. */
    method AckAndService()
      requires Valid()
      modifies this`log, this`istr, epReg
      ensures epReg[..] == ServiceEp(C, old(epReg[..]), old(istr).epId).regs
      ensures istr == IstrAck(old(istr), Ctr)
      ensures log == old(log) + ServiceEp(C, old(epReg[..]), old(istr).epId).events
    {
      var cur := istr;
      istr := IstrAck(istr, Ctr);
      ServiceEndpoint(cur.epId);
    }

    /** USB_LP_CAN1_RX0_IRQHandler. */
    method InterruptHandler(raised: seq<Istr>)
      requires Valid()
      modifies this, epReg, dscr
      ensures Valid()
      ensures State() == IsrSpec(C, old(State()), raised)
    {
      var s := istr.flags;
      HandleLinkStates();
      HandleFrameErrors(s);
      ServiceEndpoints(raised);
    }

    /** USB_GetFrame. */
    method GetFrame() returns (f: bv16)
      requires Valid()
      ensures f == FrameNumber(State())
    {
      f := fnr & FnrFn;
    }
  }
}
