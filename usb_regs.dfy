/** Register bits and write semantics of the STM32F10x USB peripheral.
    The bit values are those of the USB chapter of the STM32F10x reference manual
    (RM0008); the firmware takes them from a register header that is not part of
    this model. */
module UsbRegs {

  // Endpoint register EPnR
  const EpCtrRx: bv16 := 0x8000
  const EpDtogRx: bv16 := 0x4000
  const EpStatRx: bv16 := 0x3000
  const EpSetup: bv16 := 0x0800
  const EpType: bv16 := 0x0600
  const EpKind: bv16 := 0x0100
  const EpCtrTx: bv16 := 0x0080
  const EpDtogTx: bv16 := 0x0040
  const EpStatTx: bv16 := 0x0030
  const EpEa: bv16 := 0x000F

  /** EP_MASK: the bits a read-modify-write of EPnR writes back as read
      (the CTR flags, SETUP, EP_TYPE, EP_KIND and the address). */
  const EpMask: bv16 := EpCtrRx | EpSetup | EpType | EpKind | EpCtrTx | EpEa

  /** The toggle-on-write-1 bits of EPnR. */
  const EpToggle: bv16 := EpStatRx | EpStatTx | EpDtogRx | EpDtogTx

  /** The clear-on-write-0 bits of EPnR. */
  const EpCtr: bv16 := EpCtrRx | EpCtrTx

  // Values of EP_TYPE
  const EpBulk: bv16 := 0x0000
  const EpControl: bv16 := 0x0200
  const EpIsochronous: bv16 := 0x0400
  const EpInterrupt: bv16 := 0x0600

  // Values of STAT_TX and STAT_RX
  const EpTxDis: bv16 := 0x0000
  const EpTxStall: bv16 := 0x0010
  const EpTxValid: bv16 := 0x0030
  const EpRxDis: bv16 := 0x0000
  const EpRxStall: bv16 := 0x1000
  const EpRxValid: bv16 := 0x3000

  // Control register CNTR
  const CntrCtrm: bv16 := 0x8000
  const CntrPmaOvrm: bv16 := 0x4000
  const CntrErrm: bv16 := 0x2000
  const CntrWkupm: bv16 := 0x1000
  const CntrSuspm: bv16 := 0x0800
  const CntrResetm: bv16 := 0x0400
  const CntrSofm: bv16 := 0x0200
  const CntrEsofm: bv16 := 0x0100
  const CntrResume: bv16 := 0x0010
  const CntrFsusp: bv16 := 0x0008
  const CntrLpMode: bv16 := 0x0004
  const CntrPdwn: bv16 := 0x0002
  const CntrFres: bv16 := 0x0001

  /** The interrupt mask bits of CNTR (bits 15..8). */
  const CntrInterrupts: bv16 :=
    CntrCtrm | CntrPmaOvrm | CntrErrm | CntrWkupm | CntrSuspm | CntrResetm | CntrSofm | CntrEsofm

  // Device address register DADDR and frame number register FNR
  const DaddrEf: bv16 := 0x0080
  const DaddrAdd: bv16 := 0x007F
  const FnrFn: bv16 := 0x07FF

  /** What an endpoint register holds after the value `w` is written to it when it
      held `cur`: STAT and DTOG bits toggle where `w` has a 1, the CTR flags are
      cleared where `w` has a 0, every other bit takes the written value. */
  function EpWrite(cur: bv16, w: bv16): bv16 {
    ((cur ^ w) & EpToggle) | (cur & w & EpCtr) | (w & !(EpToggle | EpCtr))
  }

  /** A condition ISTR flags (bits 15..8): CTR, PMAOVR, ERR, WKUP, SUSP, RESET,
      SOF and ESOF. */
  datatype IstrFlag = Ctr | PmaOvr | Err | Wkup | Susp | Reset | Sof | Esof

  type EpId = n: nat | n < 16

  /** The interrupt status register as the firmware uses it: the conditions
      pending, and the read-only EP_ID field (bits 3..0) naming the endpoint whose
      transfer completed. */
  datatype Istr = Istr(flags: set<IstrFlag>, epId: EpId)

  /** What ISTR holds after the firmware writes the complement of `f` to it: every
      flag is clear-on-write-0, so that condition is acknowledged and no other flag
      and not EP_ID changes. */
  function IstrAck(cur: Istr, f: IstrFlag): (r: Istr)
    ensures f !in r.flags
    ensures forall g :: g != f ==> (g in r.flags <==> g in cur.flags)
    ensures r.epId == cur.epId
  {
    cur.(flags := cur.flags - {f})
  }

  /** What ISTR holds after the firmware writes 0 to it: every flag is cleared. */
  function IstrClear(cur: Istr): (r: Istr)
    ensures r.flags == {} && r.epId == cur.epId
  {
    cur.(flags := {})
  }

  /** Direction (bit 7) of an endpoint number: set for IN. */
  predicate IsIn(epNum: bv32) { epNum & 0x80 != 0 }

  /** Endpoint address (bits 3..0) of an endpoint number. */
  function EpIndex(epNum: bv32): (n: nat)
    ensures n < 16
  {
    (if epNum & 8 != 0 then 8 else 0) + (if epNum & 4 != 0 then 4 else 0)
    + (if epNum & 2 != 0 then 2 else 0) + (if epNum & 1 != 0 then 1 else 0)
  }

  /** The STAT field that EP_Status addresses for the direction of `epNum`. */
  function StatField(epNum: bv32): bv16 {
    if IsIn(epNum) then EpStatTx else EpStatRx
  }

  /** The data-toggle bit that EP_Reset addresses for the direction of `epNum`. */
  function DtogField(epNum: bv32): bv16 {
    if IsIn(epNum) then EpDtogTx else EpDtogRx
  }

  /** The value EP_Status writes to the register of an IN endpoint that held
      `val`: the EP_MASK fields as read, and in STAT_TX the bits that must toggle
      to reach `stat`. */
  function TxStatusWord(val: bv16, stat: bv16): bv16 {
    (val ^ (stat & EpStatTx)) & (EpMask | EpStatTx)
  }

  /** The same for an OUT endpoint and STAT_RX. */
  function RxStatusWord(val: bv16, stat: bv16): bv16 {
    (val ^ (stat & EpStatRx)) & (EpMask | EpStatRx)
  }

  /** EP_Status on an IN endpoint: STAT_TX holds the requested status whatever it
      held before, and no other bit changes. */
  function TxStatusEffect(val: bv16, stat: bv16): (r: bv16)
    ensures r & EpStatTx == stat & EpStatTx
    ensures r & !EpStatTx == val & !EpStatTx
  {
    EpWrite(val, TxStatusWord(val, stat))
  }

  /** EP_Status on an OUT endpoint: the same for STAT_RX. */
  function RxStatusEffect(val: bv16, stat: bv16): (r: bv16)
    ensures r & EpStatRx == stat & EpStatRx
    ensures r & !EpStatRx == val & !EpStatRx
  {
    EpWrite(val, RxStatusWord(val, stat))
  }

  /** The register after EP_Status: the addressed STAT field holds the requested
      status whatever it held before, and no other bit changes. */
  function EpStatusEffect(epNum: bv32, val: bv16, stat: bv16): (r: bv16)
    ensures r & StatField(epNum) == stat & StatField(epNum)
    ensures r & !StatField(epNum) == val & !StatField(epNum)
  {
    if IsIn(epNum) then TxStatusEffect(val, stat) else RxStatusEffect(val, stat)
  }

  /** Of two EP_Status calls on one endpoint direction the last one wins: the
      register is as if only the second call had been made. In particular setting
      the same status twice is the same as setting it once. */
  lemma EpStatusLastWins(epNum: bv32, val: bv16, first: bv16, second: bv16)
    ensures EpStatusEffect(epNum, EpStatusEffect(epNum, val, first), second)
         == EpStatusEffect(epNum, val, second)
  {
    if IsIn(epNum) {
      assert TxStatusEffect(TxStatusEffect(val, first), second) == TxStatusEffect(val, second);
    } else {
      assert RxStatusEffect(RxStatusEffect(val, first), second) == RxStatusEffect(val, second);
    }
  }

  /** The value EP_Reset writes to the endpoint register that held `val`. */
  function EpResetWord(epNum: bv32, val: bv16): bv16 {
    if IsIn(epNum) then TxResetWord(val) else RxResetWord(val)
  }

  /** The value EP_Reset writes for an IN endpoint. */
  function TxResetWord(val: bv16): bv16 {
    val & (EpMask | EpDtogTx)
  }

  /** The value EP_Reset writes for an OUT endpoint. */
  function RxResetWord(val: bv16): bv16 {
    val & (EpMask | EpDtogRx)
  }

  /** The register after EP_Reset: that direction's data toggle is cleared and no
      other bit (the STAT fields, the other toggle, the EP_MASK fields) changes. */
  function EpResetEffect(epNum: bv32, val: bv16): (r: bv16)
    ensures r & DtogField(epNum) == 0
    ensures r & !DtogField(epNum) == val & !DtogField(epNum)
  {
    EpWrite(val, EpResetWord(epNum, val))
  }

  /** The value the interrupt handler writes to acknowledge a completed transfer:
      the EP_MASK bits of the value `val` it read, without `ctr`. */
  function CtrAckWord(val: bv16, ctr: bv16): bv16 {
    val & !ctr & EpMask
  }

  /** An endpoint register with its CTR flags cleared: no transfer is left
      flagged as complete, and every other field keeps its value. */
  function CtrClear(val: bv16): (r: bv16)
    ensures r & EpCtr == 0 && r & !EpCtr == val & !EpCtr
  {
    val & !EpCtr
  }

  /** The endpoint register after the interrupt handler acknowledges a completed
      reception (when CTR_RX is set in the value `val` it read) and then a completed
      transmission (when CTR_TX is set), both writes built from that one value:
      exactly the CTR flags are cleared, and STAT, DTOG and every other field keep
      their values. */
  function CtrServiced(val: bv16): (r: bv16)
    ensures r == CtrClear(val)
  {
    if val & EpCtrRx != 0 then
      if val & EpCtrTx != 0 then
        AckTxAfterRx(val);
        EpWrite(EpWrite(val, CtrAckWord(val, EpCtrRx)), CtrAckWord(val, EpCtrTx))
      else
        AckRx(val);
        EpWrite(val, CtrAckWord(val, EpCtrRx))
    else if val & EpCtrTx != 0 then
      AckTxOnly(val);
      EpWrite(val, CtrAckWord(val, EpCtrTx))
    else
      NothingToAck(val);
      val
  }

  lemma AckRx(val: bv16)
    requires val & EpCtrRx != 0 && val & EpCtrTx == 0
    ensures EpWrite(val, CtrAckWord(val, EpCtrRx)) == CtrClear(val)
  {
  }

  lemma AckTxAfterRx(val: bv16)
    ensures EpWrite(EpWrite(val, CtrAckWord(val, EpCtrRx)), CtrAckWord(val, EpCtrTx)) == CtrClear(val)
  {
  }

  lemma AckTxOnly(val: bv16)
    requires val & EpCtrRx == 0
    ensures EpWrite(val, CtrAckWord(val, EpCtrTx)) == CtrClear(val)
  {
  }

  lemma NothingToAck(val: bv16)
    requires val & EpCtr == 0
    ensures val == CtrClear(val)
  {
  }

  /** A register that is either left alone or has its CTR flags cleared, twice
      over, is either left alone or has its CTR flags cleared. */
  lemma CtrClearedTwice(a: bv16, serviced: bool, b: bv16, c: bv16)
    requires b == if serviced then CtrClear(a) else a
    requires c == b || c == CtrClear(b)
    ensures c == a || c == CtrClear(a)
  {
  }

  /** The register after USB_ConfigEP writes the type, EP_KIND when asked for, and
      the endpoint address `ea`: the non-toggle fields hold exactly that value (the
      CTR flags and SETUP are cleared) and STAT and DTOG keep what they held. */
  function ConfigWriteEffect(cur: bv16, typ: bv16, kind: bool, ea: bv16): (r: bv16)
    requires typ & !EpType == 0 && ea & !EpEa == 0
    ensures r & !EpToggle == typ | (if kind then EpKind else 0) | ea
    ensures r & EpToggle == cur & EpToggle
    ensures r & EpEa == ea && r & EpType == typ && r & (EpCtr | EpSetup) == 0
    ensures (r & EpKind != 0) == kind
  {
    EpWrite(cur, ConfigWord(typ, kind, ea))
  }

  /** The value USB_ConfigEP writes: the type, EP_KIND when asked for, and the
      endpoint address. */
  function ConfigWord(typ: bv16, kind: bool, ea: bv16): bv16 {
    typ | (if kind then EpKind else 0) | ea
  }

  /** CNTR after USB_Reset: the interrupt mask enables correct transfer and reset
      always, and each optional interrupt exactly when its event is configured. */
  function ResetCntr(suspendEvent: bool, wakeupEvent: bool, errorEvent: bool,
                     sofEvent: bool): (r: bv16)
    ensures r & (CntrCtrm | CntrResetm) == CntrCtrm | CntrResetm
    ensures (r & CntrSuspm != 0) == suspendEvent
    ensures (r & CntrWkupm != 0) == wakeupEvent
    ensures (r & CntrErrm != 0) == errorEvent && (r & CntrPmaOvrm != 0) == errorEvent
    ensures (r & CntrSofm != 0) == sofEvent && (r & CntrEsofm != 0) == sofEvent
    ensures r & (CntrFsusp | CntrLpMode | CntrFres | CntrPdwn | CntrResume) == 0
  {
    CntrCtrm | CntrResetm
    | (if suspendEvent then CntrSuspm else 0)
    | (if wakeupEvent then CntrWkupm else 0)
    | (if errorEvent then CntrErrm else 0)
    | (if errorEvent then CntrPmaOvrm else 0)
    | (if sofEvent then CntrSofm else 0)
    | (if sofEvent then CntrEsofm else 0)
  }

  /** CNTR after USB_Suspend: force-suspend and low-power mode are set, nothing else changes. */
  function SuspendCntr(cntr: bv16): (r: bv16)
    ensures r & (CntrFsusp | CntrLpMode) == CntrFsusp | CntrLpMode
    ensures r & !(CntrFsusp | CntrLpMode) == cntr & !(CntrFsusp | CntrLpMode)
  {
    var c := cntr | CntrFsusp;
    c | CntrLpMode
  }

  /** CNTR after USB_WakeUp: force-suspend is cleared, nothing else changes. */
  function WakeUpCntr(cntr: bv16): (r: bv16)
    ensures r & CntrFsusp == 0
    ensures r & !CntrFsusp == cntr & !CntrFsusp
  {
    cntr & !CntrFsusp
  }

  /** A wakeup after a suspend clears force-suspend but leaves low-power mode set:
      leaving low-power mode is left to the peripheral. */
  lemma WakeUpAfterSuspend(cntr: bv16)
    ensures WakeUpCntr(SuspendCntr(cntr)) & CntrLpMode == CntrLpMode
    ensures WakeUpCntr(SuspendCntr(cntr)) & !(CntrFsusp | CntrLpMode)
         == cntr & !(CntrFsusp | CntrLpMode)
  {
  }
}
