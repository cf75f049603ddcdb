# STM32F10x USB hardware layer and digital-input filter, in Dafny

This project models two parts of the GT1025 tracker firmware.

**The USB device hardware layer** (`usbhw.c`) drives the STM32F10x USB peripheral. It covers:

- the endpoint registers EP0R..EP15R;
- the interrupt status register ISTR and the control register CNTR;
- the device address register DADDR and the frame number register FNR;
- the buffer descriptor table (ADDR_TX, COUNT_TX, ADDR_RX, COUNT_RX per endpoint);
- the packet memory (PMA);
- the global `FreeBufAddr`, a bump allocator for PMA buffers.

The layer also runs the interrupt handler. It turns the interrupt status into calls into the USB class layer above.

**The digital-input filter** (`IO_Init`, `IO_Control`) debounces the tracker's digital inputs.

The model has five modules.

- `UsbRegs`: register words and the peripheral's write semantics, as functions. STAT and DTOG bits of EPnR toggle where a 1 is written. CTR flags of EPnR and every ISTR flag clear where a 0 is written. Every other bit takes the written value.
  - The words EP_Status, EP_Reset and USB_ConfigEP write, and their effect.
  - The CNTR values of USB_Reset, USB_Suspend and USB_WakeUp.
  - The acknowledgement the interrupt handler writes for a completed transfer.
- `UsbPma`: the arithmetic of packet memory.
  - Buffer size rounding and the COUNTn_RX block encoding, read back as the capacity the peripheral sees.
  - The little-endian half-word copies between byte buffers and the PMA.
  - The regions the bump allocator hands out.
- `UsbSpec`: one function per firmware routine on a snapshot of the peripheral (`UsbState`), plus lemmas on those functions.
  - Calls into the layer above (`USB_P_EP[n](evt)`, `USB_*_Event()`) are appended to a log of `Event`s.
  - The compile-time switches of the stack are a `Config` value: `USB_*_EVENT`, `USB_MAX_PACKET0`, `EP_BUF_ADDR`, `USB_DBL_BUF_EP`, and which entries of `USB_P_EP` are set.
  - The interrupt handler's endpoint loop reads ISTR again at every turn. It is fed an explicit sequence of the ISTR values the hardware presents (`raised`).
- `UsbHw`: class `UsbDevice`. It holds the registers as fields and the endpoint registers, the descriptor table and the PMA as arrays. Every routine is a method that updates them as the firmware does, including the copy loops of USB_ReadEP and USB_WriteEP and the `while` loop of the interrupt handler. Each method is proved to leave the state its `UsbSpec` function gives. A ghost record of the regions handed out since the last USB_Reset is kept tiled, so buffers never overlap.
- `IoFilter`: class `IoStatus` for the global `ioStatus`, with `IoInit` and `IoControl`. Pin reads are parameters.
  - The model keeps the code's channel mapping: channel 3 counts both the AVLIO4 and the AVLIO5 read, and channel 4 counts nothing.
  - The lemmas prove what follows from that mapping: with IO_FILLTER_CNT = 1, the filtered bits of channels 3 and 4 never change.

Register bit masks are the STM32F10x reference manual (RM0008) values, because `usbreg.h` and `usbcfg.h` are not part of this model. All of them are constants in `UsbRegs`:

- EP_CTR_RX 0x8000, EP_DTOG_RX 0x4000, EP_STAT_RX 0x3000, EP_SETUP 0x0800, EP_TYPE 0x0600, EP_KIND 0x0100, EP_CTR_TX 0x0080, EP_DTOG_TX 0x0040, EP_STAT_TX 0x0030, EP_EA 0x000F;
- EP_MASK = CTR_RX | SETUP | TYPE | KIND | CTR_TX | EA;
- the CNTR and DADDR bits;
- a PMA of 512 bytes.

Above 62 bytes, USB_Reset and USB_ConfigEP write COUNT_RX as `((size << 5) - 1) | 0x8000` (usbhw.c:148, 245). `CountRxRoundTrip` proves three things about that value: it sets BL_SIZE, its NUM_BLOCK is `size/32 - 1`, and it reads back as a capacity of exactly `size`.

## Model

| member | source | states |
|---|---|---|
| UsbRegs.IstrAck | firmware/gt1025/ampm_lib/usb/usbhw.c:433 | writing the complement of one flag to ISTR clears that flag and no other, and keeps EP_ID |
| UsbRegs.IstrClear | firmware/gt1025/ampm_lib/usb/usbhw.c:107 | writing 0 to ISTR clears every flag |
| UsbRegs.EpIndex | firmware/gt1025/ampm_lib/usb/usbhw.c:51 | `EPNum & 0x0F` names one of the 16 endpoint registers |
| UsbRegs.IsIn | firmware/gt1025/ampm_lib/usb/usbhw.c:53 | an endpoint number is IN exactly when bit 7 (`EPNum & 0x80`) is set, the test of EP_Reset and of EP_Status (line 75) |
| UsbRegs.StatField | firmware/gt1025/ampm_lib/usb/usbhw.c:75-79 | the STAT field EP_Status addresses: STAT_TX for an IN number, STAT_RX otherwise |
| UsbRegs.DtogField | firmware/gt1025/ampm_lib/usb/usbhw.c:53-57 | the data-toggle bit EP_Reset addresses: DTOG_TX for an IN number, DTOG_RX otherwise |
| UsbRegs.EpResetWord | firmware/gt1025/ampm_lib/usb/usbhw.c:53-57 | the value EP_Reset writes: TxResetWord for an IN number, RxResetWord otherwise |
| UsbRegs.TxStatusEffect | firmware/gt1025/ampm_lib/usb/usbhw.c:76 | the IN write of EP_Status leaves STAT_TX equal to the requested status, whatever it held, and changes no other bit |
| UsbRegs.RxStatusEffect | firmware/gt1025/ampm_lib/usb/usbhw.c:78 | the OUT write of EP_Status leaves STAT_RX equal to the requested status and changes no other bit |
| UsbRegs.EpStatusEffect | firmware/gt1025/ampm_lib/usb/usbhw.c:70-80 | EP_Status sets the STAT field of the addressed direction to `stat` and changes no other bit |
| UsbRegs.EpStatusLastWins | firmware/gt1025/ampm_lib/usb/usbhw.c:70-80 | two EP_Status calls on one endpoint leave what the second alone leaves; setting a status twice equals setting it once |
| UsbRegs.EpResetEffect | firmware/gt1025/ampm_lib/usb/usbhw.c:48-58 | EP_Reset clears the data toggle of the addressed direction and changes no other bit (STAT, other toggle, EP_MASK fields) |
| UsbRegs.CtrClear | firmware/gt1025/ampm_lib/usb/usbhw.c:486 | a serviced register has no CTR flag set and every other bit as before |
| UsbRegs.CtrServiced | firmware/gt1025/ampm_lib/usb/usbhw.c:484-500 | the handler's one or two acknowledgement writes, each built from the value read once, clear exactly the CTR flags and keep STAT and DTOG |
| UsbRegs.CtrClearedTwice | firmware/gt1025/ampm_lib/usb/usbhw.c:479-501 | a register serviced again is still the original or the original with its CTR flags cleared |
| UsbRegs.TxStatusWord | firmware/gt1025/ampm_lib/usb/usbhw.c:76 | the value EP_Status writes for an IN number: the EP_MASK bits as read, and in STAT_TX the bits that must toggle to reach `stat` |
| UsbRegs.RxStatusWord | firmware/gt1025/ampm_lib/usb/usbhw.c:78 | the value EP_Status writes for an OUT number: the EP_MASK bits as read, and in STAT_RX the bits that must toggle to reach `stat` |
| UsbRegs.TxResetWord | firmware/gt1025/ampm_lib/usb/usbhw.c:54 | the value EP_Reset writes for an IN number: the EP_MASK bits and DTOG_TX as read, so DTOG_TX toggles back to 0 |
| UsbRegs.RxResetWord | firmware/gt1025/ampm_lib/usb/usbhw.c:56 | the value EP_Reset writes for an OUT number: the EP_MASK bits and DTOG_RX as read, so DTOG_RX toggles back to 0 |
| UsbRegs.CtrAckWord | firmware/gt1025/ampm_lib/usb/usbhw.c:486 | the acknowledgement the handler writes (here and at line 496): the EP_MASK bits of the value read, without the CTR flag being acknowledged |
| UsbRegs.ConfigWord | firmware/gt1025/ampm_lib/usb/usbhw.c:253-271 | the value USB_ConfigEP writes: type, EP_KIND when asked for, and the endpoint number |
| UsbRegs.ConfigWriteEffect | firmware/gt1025/ampm_lib/usb/usbhw.c:253-271 | the USB_ConfigEP write gives EPnR exactly the type, EP_KIND when asked for and the address, clears CTR and SETUP, and keeps STAT and DTOG |
| UsbRegs.ResetCntr | firmware/gt1025/ampm_lib/usb/usbhw.c:129-135 | the CNTR of USB_Reset enables CTR and RESET interrupts always and each optional interrupt exactly when its event is configured, with FRES, PDWN, LP_MODE, FSUSP and RESUME clear |
| UsbRegs.SuspendCntr | firmware/gt1025/ampm_lib/usb/usbhw.c:164-167 | USB_Suspend sets FSUSP and LP_MODE and keeps every other CNTR bit |
| UsbRegs.WakeUpCntr | firmware/gt1025/ampm_lib/usb/usbhw.c:187-189 | USB_WakeUp clears FSUSP and keeps every other CNTR bit |
| UsbRegs.WakeUpAfterSuspend | firmware/gt1025/ampm_lib/usb/usbhw.c:164-189 | a wakeup after a suspend leaves LP_MODE set and restores every bit other than FSUSP and LP_MODE |
| UsbPma.RoundEven | firmware/gt1025/ampm_lib/usb/usbhw.c:240 | `(val + 1) & ~1` is the least even number not below `val` |
| UsbPma.RoundBlocks | firmware/gt1025/ampm_lib/usb/usbhw.c:244 | `(val + 31) & ~31` is the least multiple of 32 not below `val` |
| UsbPma.BufSize | firmware/gt1025/ampm_lib/usb/usbhw.c:237-250 | the reserved size is at least wMaxPacketSize; even and under size + 2 for IN or up to 62 bytes; a multiple of 32 under size + 32 for OUT above 62 |
| UsbPma.CountRxRoundTrip | firmware/gt1025/ampm_lib/usb/usbhw.c:243-249 | the COUNT_RX value written has BL_SIZE set exactly above 62 bytes, NUM_BLOCK `size/32 - 1` or `size/2`, and reads back as a capacity of exactly `size` |
| UsbPma.BufSizeEncodable | firmware/gt1025/ampm_lib/usb/usbhw.c:242-249 | every OUT size USB_ConfigEP can reserve inside the PMA is one COUNT_RX can encode |
| UsbPma.HalfWords | firmware/gt1025/ampm_lib/usb/usbhw.c:368 | `(cnt + 1) / 2` half-words cover `cnt` bytes with at most one byte to spare |
| UsbPma.Pack | firmware/gt1025/ampm_lib/usb/usbhw.c:396-399 | each half-word written holds the next two bytes of the buffer, low byte first |
| UsbPma.HalfWord | firmware/gt1025/ampm_lib/usb/usbhw.c:396-397 | the 16-bit value a packed halfword load of two bytes gives: the first byte low, the second high |
| UsbPma.CountRxWord | firmware/gt1025/ampm_lib/usb/usbhw.c:245-248 | the COUNT_RX value written (also by USB_Reset at line 148) for a receive buffer: `((size << 5) - 1) \| 0x8000` above 62 bytes, `size << 9` otherwise |
| UsbPma.Unpack | firmware/gt1025/ampm_lib/usb/usbhw.c:368-371 | the bytes of a run of half-words, low byte first, two per half-word |
| UsbPma.UnpackPack | firmware/gt1025/ampm_lib/usb/usbhw.c:368-371 | unpacking what was packed gives the bytes back |
| UsbPma.Store | firmware/gt1025/ampm_lib/usb/usbhw.c:395-399 | the written half-words land from the buffer address on, and the rest of the PMA is unchanged |
| UsbPma.StoredPacked | firmware/gt1025/ampm_lib/usb/usbhw.c:396-399 | a PMA that holds the packed half-words at the buffer and is unchanged elsewhere is the stored PMA |
| UsbPma.UnpackedPairs | firmware/gt1025/ampm_lib/usb/usbhw.c:368-371 | bytes that hold the low and high bytes of each half-word in turn are the unpacked half-words |
| UsbPma.Load | firmware/gt1025/ampm_lib/usb/usbhw.c:366-369 | the half-words read are those from the buffer address on |
| UsbPma.StoreLoadRoundTrip | firmware/gt1025/ampm_lib/usb/usbhw.c:360-404 | reading back the region just written returns the bytes written, rounded to whole half-words, so the first `cnt` exactly |
| UsbPma.TiledDisjoint | firmware/gt1025/ampm_lib/usb/usbhw.c:251 | buffers handed out by the bump cursor lie between its start and its position and never overlap |
| UsbPma.TiledBump | firmware/gt1025/ampm_lib/usb/usbhw.c:251 | `FreeBufAddr += val` hands out one more region adjacent to the previous ones |
| UsbSpec.ConnectSpec | firmware/gt1025/ampm_lib/usb/usbhw.c:104-115 | ISTR is cleared; on connect CNTR is exactly RESETM, so only the reset interrupt is enabled; on disconnect CNTR is exactly FRES, LP_MODE and FSUSP, every interrupt is masked, and the device is marked disconnected; nothing else changes |
| UsbSpec.ResetSpec | firmware/gt1025/ampm_lib/usb/usbhw.c:124-155 | USB_Reset clears ISTR and leaves the packet memory and the calls made alone |
| UsbSpec.ResetEffects | firmware/gt1025/ampm_lib/usb/usbhw.c:124-155 | after USB_Reset: CNTR as configured; BTABLE 0; EP0's TX buffer at EP_BUF_ADDR and RX buffer after it with capacity USB_MAX_PACKET0; the cursor after both; EPxREG(0) a control endpoint, VALID for reception when its toggles were clear; DADDR enabled at address 0; no other endpoint changed |
| UsbSpec.EpResetSpec | firmware/gt1025/ampm_lib/usb/usbhw.c:48-58 | EP_Reset replaces only the register `EPNum & 0x0F` by its EpResetEffect |
| UsbSpec.EpStatusSpec | firmware/gt1025/ampm_lib/usb/usbhw.c:70-80 | EP_Status replaces only the register `EPNum & 0x0F` by its EpStatusEffect |
| UsbSpec.ClrStallAfterSetStall | firmware/gt1025/ampm_lib/usb/usbhw.c:333-348 | clearing a stall leaves the endpoint as if it had never been stalled |
| UsbSpec.SuspendSpec | firmware/gt1025/ampm_lib/usb/usbhw.c:164-167 | USB_Suspend changes only CNTR, to SuspendCntr |
| UsbSpec.WakeUpSpec | firmware/gt1025/ampm_lib/usb/usbhw.c:187-189 | USB_WakeUp changes only CNTR, to WakeUpCntr |
| UsbSpec.SetAddressSpec | firmware/gt1025/ampm_lib/usb/usbhw.c:209-211 | a 7-bit address lands in DADDR's address field with the enable bit set, and nothing else changes |
| UsbSpec.EpTypeOf | firmware/gt1025/ampm_lib/usb/usbhw.c:253-269 | the endpoint type picked from bmAttributes fits the EP_TYPE field |
| UsbSpec.DescAddr | firmware/gt1025/ampm_lib/usb/usbhw.c:270 | the endpoint address written fits the EA field |
| UsbSpec.DescIndex | firmware/gt1025/ampm_lib/usb/usbhw.c:235 | the descriptor's endpoint number names one of the 16 registers |
| UsbSpec.DescIsIn | firmware/gt1025/ampm_lib/usb/usbhw.c:238 | the descriptor is IN exactly when `bEndpointAddress & USB_ENDPOINT_DIRECTION_MASK` is set |
| UsbSpec.WantsKind | firmware/gt1025/ampm_lib/usb/usbhw.c:260-264 | EP_KIND is added exactly for a bulk endpoint whose bit `1 << num` is set in `USB_DBL_BUF_EP` |
| UsbSpec.DescBufSize | firmware/gt1025/ampm_lib/usb/usbhw.c:237-251 | the `val` added to FreeBufAddr: BufSize for the descriptor's direction and wMaxPacketSize |
| UsbSpec.ConfigEpDscr | firmware/gt1025/ampm_lib/usb/usbhw.c:238-250 | the descriptor entry after USB_ConfigEP: ADDR_TX set to the cursor for IN; ADDR_RX set to the cursor and COUNT_RX to CountRxWord of the reserved size for OUT |
| UsbSpec.ConfigEpSpec | firmware/gt1025/ampm_lib/usb/usbhw.c:231-272 | USB_ConfigEP changes only the cursor, the descriptor table and the endpoint registers |
| UsbSpec.ConfigEpEffects | firmware/gt1025/ampm_lib/usb/usbhw.c:231-272 | the buffer of the endpoint's direction starts at the old cursor, is at least wMaxPacketSize long, and the cursor moves past it; for OUT, COUNT_RX encodes exactly the reserved size; EPnR gets type, address and EP_KIND exactly for a double-buffered bulk endpoint, with CTR and SETUP clear and STAT and DTOG kept; no other endpoint changes |
| UsbSpec.ReadCount | firmware/gt1025/ampm_lib/usb/usbhw.c:367 | the count USB_ReadEP reports: `COUNT_RX & EP_COUNT_MASK` of the endpoint's descriptor entry |
| UsbSpec.ReadBytes | firmware/gt1025/ampm_lib/usb/usbhw.c:366-371 | USB_ReadEP copies out whole half-words, two bytes for each of the `(cnt + 1) / 2` half-words COUNT_RX asks for |
| UsbSpec.WriteEpSpec | firmware/gt1025/ampm_lib/usb/usbhw.c:389-404 | USB_WriteEP stores the packed bytes at ADDR_TX / 2, sets COUNT_TX to `cnt`, then applies EP_Status with TX_VALID |
| UsbSpec.WriteThenRead | firmware/gt1025/ampm_lib/usb/usbhw.c:360-404 | after USB_WriteEP of `cnt` bytes, a USB_ReadEP of the same PMA region with COUNT_RX = `cnt` returns the first `cnt` bytes unchanged |
| UsbSpec.FrameNumber | firmware/gt1025/ampm_lib/usb/usbhw.c:413-415 | USB_GetFrame returns exactly the FN field of FNR |
| UsbSpec.EpEvents | firmware/gt1025/ampm_lib/usb/usbhw.c:485-500 | the calls for one endpoint: those for reception, then those for transmission |
| UsbSpec.RxEvents | firmware/gt1025/ampm_lib/usb/usbhw.c:485-494 | one call, SETUP when EP_SETUP is set and OUT otherwise, when CTR_RX is set and the endpoint has a handler; none otherwise |
| UsbSpec.TxEvents | firmware/gt1025/ampm_lib/usb/usbhw.c:495-500 | one IN call when CTR_TX is set and the endpoint has a handler; none otherwise |
| UsbSpec.EpEventsCalls | firmware/gt1025/ampm_lib/usb/usbhw.c:484-500 | one endpoint gets at most two calls, only if it has a handler: IN exactly for CTR_TX, SETUP or OUT as EP_SETUP says exactly for CTR_RX, and IN last |
| UsbSpec.ServiceEp | firmware/gt1025/ampm_lib/usb/usbhw.c:482-500 | servicing an endpoint clears exactly that register's CTR flags, and the calls follow the value read |
| UsbSpec.Drain | firmware/gt1025/ampm_lib/usb/usbhw.c:479-501 | the endpoint loop: while the ISTR value read has CTR, acknowledge it, service endpoint EP_ID and read ISTR again; the registers, ISTR and calls it leaves |
| UsbSpec.DrainQuiet | firmware/gt1025/ampm_lib/usb/usbhw.c:479-501 | the endpoint loop ends only when ISTR has no CTR flag; without new hardware status the other flags are as on entry |
| UsbSpec.OnlyCtrClearedAfterService | firmware/gt1025/ampm_lib/usb/usbhw.c:479-501 | servicing one endpoint and then more leaves each register as before or with only its CTR flags cleared |
| UsbSpec.DrainOnlyClearsCtr | firmware/gt1025/ampm_lib/usb/usbhw.c:479-501 | the endpoint loop changes no endpoint register except to clear CTR flags |
| UsbSpec.DrainCallsHandlers | firmware/gt1025/ampm_lib/usb/usbhw.c:479-501 | every call the endpoint loop makes goes to an endpoint whose handler is set |
| UsbSpec.DrainTwoEndpoints | firmware/gt1025/ampm_lib/usb/usbhw.c:479-501 | two endpoints flagged in turn are both serviced in one interrupt: the first's calls, then the second's, both CTR flags cleared |
| UsbSpec.Run | firmware/gt1025/ampm_lib/usb/usbhw.c:429 | the routine run for a bus condition leaves the PMA and the calls alone; only USB_Reset touches ISTR or the endpoints |
| UsbSpec.Handle | firmware/gt1025/ampm_lib/usb/usbhw.c:428-434 | a flagged condition runs its routine, logs its event when configured and acknowledges its flag; an unflagged one changes nothing |
| UsbSpec.BusEvents | firmware/gt1025/ampm_lib/usb/usbhw.c:428-476 | the calls of the bus part for an ISTR value: reset, suspend, wakeup, start of frame, PMA overrun and error, each when flagged and configured, in that order |
| UsbSpec.LinkEvents | firmware/gt1025/ampm_lib/usb/usbhw.c:428-452 | the reset, suspend and wakeup events, each made when its flag is in the ISTR value read and its event is configured, in that order |
| UsbSpec.FrameErrorEvents | firmware/gt1025/ampm_lib/usb/usbhw.c:455-476 | the SOF event when flagged and configured, then `USB_Error_Event(1)` for PMAOVR and `USB_Error_Event(0)` for ERR when error events are configured |
| UsbSpec.BusAcked | firmware/gt1025/ampm_lib/usb/usbhw.c:433-473 | the flags the bus part can acknowledge: RESET, SUSP, WKUP and SOF always, PMAOVR and ERR only when error events are configured |
| UsbSpec.BusLinkStates | firmware/gt1025/ampm_lib/usb/usbhw.c:428-452 | reset, suspend and wakeup are handled in that order for the flags read on entry; after a reset ISTR is clear, otherwise exactly SUSP and WKUP are acknowledged |
| UsbSpec.BusFrameErrors | firmware/gt1025/ampm_lib/usb/usbhw.c:454-476 | SOF, then PMAOVR (`USB_Error_Event(1)`) and ERR (`USB_Error_Event(0)`) when error events are configured; each flagged one is acknowledged; no endpoint is touched |
| UsbSpec.BusSpec | firmware/gt1025/ampm_lib/usb/usbhw.c:425-476 | the bus part makes the calls for the ISTR value read on entry in fixed order and acknowledges exactly the handled flags, CTR among the rest untouched; without a reset no endpoint changes |
| UsbSpec.BusAckedFlags | firmware/gt1025/ampm_lib/usb/usbhw.c:433-473 | acknowledging each set bus flag in turn acknowledges all of them together |
| UsbSpec.IsrSpec | firmware/gt1025/ampm_lib/usb/usbhw.c:422-503 | the calls are the bus calls in order followed by the endpoint loop's calls, and no transfer is left flagged in ISTR |
| UsbSpec.IsrResetOnly | firmware/gt1025/ampm_lib/usb/usbhw.c:425-434 | an interrupt with only RESET flagged leaves the peripheral as USB_Reset does, ISTR clear, with only the reset event logged when configured |
| UsbHw.UsbDevice.constructor | firmware/gt1025/ampm_lib/usb/usbhw.c:37 | the peripheral out of power-on reset, the cursor at 0 |
| UsbHw.UsbDevice.StoreEpReg | firmware/gt1025/ampm_lib/usb/usbhw.c:54 | a store to EPnR follows the toggle and clear-on-0 semantics and touches nothing else |
| UsbHw.UsbDevice.StoreDscr | firmware/gt1025/ampm_lib/usb/usbhw.c:239 | a store to one descriptor table entry touches nothing else |
| UsbHw.UsbDevice.EpReset | firmware/gt1025/ampm_lib/usb/usbhw.c:48-58 | EP_Reset on the registers gives the state of EpResetSpec |
| UsbHw.UsbDevice.EpStatus | firmware/gt1025/ampm_lib/usb/usbhw.c:70-80 | EP_Status on the registers gives the state of EpStatusSpec |
| UsbHw.UsbDevice.Connect | firmware/gt1025/ampm_lib/usb/usbhw.c:104-115 | USB_Connect gives the state of ConnectSpec |
| UsbHw.UsbDevice.RestartAlloc | firmware/gt1025/ampm_lib/usb/usbhw.c:137 | the cursor restarts at EP_BUF_ADDR with no buffer handed out |
| UsbHw.UsbDevice.Advance | firmware/gt1025/ampm_lib/usb/usbhw.c:251 | the cursor moves by the size and the region behind it joins the tiling |
| UsbHw.UsbDevice.Reset | firmware/gt1025/ampm_lib/usb/usbhw.c:124-155 | USB_Reset gives the state of ResetSpec, and the allocator's regions are exactly EP0's two buffers |
| UsbHw.UsbDevice.ResetEndpoint0 | firmware/gt1025/ampm_lib/usb/usbhw.c:137-152 | the cursor, BTABLE, EP0's descriptor entry and EPxREG(0) as USB_Reset sets them |
| UsbHw.UsbDevice.Ep0Buffers | firmware/gt1025/ampm_lib/usb/usbhw.c:143-151 | EP0's TX and RX buffers are the next two regions and COUNT_RX encodes USB_MAX_PACKET0 |
| UsbHw.UsbDevice.Suspend | firmware/gt1025/ampm_lib/usb/usbhw.c:164-167 | USB_Suspend gives the state of SuspendSpec |
| UsbHw.UsbDevice.WakeUp | firmware/gt1025/ampm_lib/usb/usbhw.c:187-189 | USB_WakeUp gives the state of WakeUpSpec |
| UsbHw.UsbDevice.SetAddress | firmware/gt1025/ampm_lib/usb/usbhw.c:209-211 | USB_SetAddress gives the state of SetAddressSpec |
| UsbHw.UsbDevice.ConfigEp | firmware/gt1025/ampm_lib/usb/usbhw.c:231-272 | USB_ConfigEP gives the state of ConfigEpSpec, and its buffer is the next region of the allocator |
| UsbHw.UsbDevice.BuffersDisjoint | firmware/gt1025/ampm_lib/usb/usbhw.c:137-151 | the buffers handed out since the last reset never overlap and lie between EP_BUF_ADDR and the cursor |
| UsbHw.UsbDevice.ConfigEpBuffer | firmware/gt1025/ampm_lib/usb/usbhw.c:235-251 | the descriptor entry and the cursor as ConfigEpSpec sets them |
| UsbHw.UsbDevice.ConfigEpRegister | firmware/gt1025/ampm_lib/usb/usbhw.c:253-271 | EPnR as ConfigEpSpec sets it |
| UsbHw.UsbDevice.EnableEp | firmware/gt1025/ampm_lib/usb/usbhw.c:294-296 | the STAT field of EPNum's direction (bit 7) is set to VALID, and every other bit and register is unchanged |
| UsbHw.UsbDevice.DisableEp | firmware/gt1025/ampm_lib/usb/usbhw.c:307-309 | the STAT field of EPNum's direction (bit 7) is set to DISABLED, and every other bit and register is unchanged |
| UsbHw.UsbDevice.ResetEp | firmware/gt1025/ampm_lib/usb/usbhw.c:320-322 | the state of EpResetSpec |
| UsbHw.UsbDevice.SetStallEp | firmware/gt1025/ampm_lib/usb/usbhw.c:333-335 | the STAT field of EPNum's direction (bit 7) is set to STALL, and every other bit and register is unchanged |
| UsbHw.UsbDevice.ClrStallEp | firmware/gt1025/ampm_lib/usb/usbhw.c:346-348 | the STAT field of EPNum's direction (bit 7) is set to VALID, and every other bit and register is unchanged |
| UsbHw.UsbDevice.ReadEp | firmware/gt1025/ampm_lib/usb/usbhw.c:360-376 | returns COUNT_RX's count, the caller's buffer starts with ReadBytes and is unchanged after them, and the register then goes through EP_Status with RX_VALID; for an OUT number STAT_RX becomes VALID, and for an IN number STAT_TX becomes DISABLED, since EP_RX_VALID has no STAT_TX bits |
| UsbHw.UsbDevice.CopyFromPma | firmware/gt1025/ampm_lib/usb/usbhw.c:368-371 | the copy loop fills the buffer with the unpacked half-words and leaves the rest of it alone |
| UsbHw.UsbDevice.WriteEp | firmware/gt1025/ampm_lib/usb/usbhw.c:389-404 | returns `cnt` and gives the state of WriteEpSpec: the bytes packed into the TX buffer, COUNT_TX = `cnt`, then EP_Status with TX_VALID; for an IN number STAT_TX becomes VALID, and for an OUT number STAT_RX becomes DISABLED |
| UsbHw.UsbDevice.CopyToPma | firmware/gt1025/ampm_lib/usb/usbhw.c:396-399 | the copy loop stores the packed bytes and changes nothing else |
| UsbHw.UsbDevice.Report | firmware/gt1025/ampm_lib/usb/usbhw.c:430-433 | the configured event is logged and the flag acknowledged |
| UsbHw.UsbDevice.OnReset | firmware/gt1025/ampm_lib/usb/usbhw.c:428-434 | the reset branch as Handle states it |
| UsbHw.UsbDevice.OnSuspend | firmware/gt1025/ampm_lib/usb/usbhw.c:437-443 | the suspend branch as Handle states it |
| UsbHw.UsbDevice.OnWakeUp | firmware/gt1025/ampm_lib/usb/usbhw.c:446-452 | the wakeup branch as Handle states it |
| UsbHw.UsbDevice.HandleLinkStates | firmware/gt1025/ampm_lib/usb/usbhw.c:425-452 | the first three branches give the state of BusLinkStates |
| UsbHw.UsbDevice.HandleFrameErrors | firmware/gt1025/ampm_lib/usb/usbhw.c:454-476 | the last three branches give the state of BusFrameErrors |
| UsbHw.UsbDevice.ServiceEndpoint | firmware/gt1025/ampm_lib/usb/usbhw.c:484-500 | one turn of the loop gives the registers and calls of ServiceEp |
| UsbHw.UsbDevice.AckReception | firmware/gt1025/ampm_lib/usb/usbhw.c:485-494 | CTR_RX acknowledged and SETUP or OUT reported when flagged |
| UsbHw.UsbDevice.AckTransmission | firmware/gt1025/ampm_lib/usb/usbhw.c:495-500 | CTR_TX acknowledged and IN reported when flagged |
| UsbHw.UsbDevice.ServiceEndpoints | firmware/gt1025/ampm_lib/usb/usbhw.c:479-501 | the `while` loop gives the registers, ISTR and calls of Drain |
| UsbHw.UsbDevice.ReadIstr | firmware/gt1025/ampm_lib/usb/usbhw.c:479 | the loop condition's read of ISTR takes the next value the hardware presents |
| UsbHw.UsbDevice.AckAndService | firmware/gt1025/ampm_lib/usb/usbhw.c:480-500 | CTR acknowledged in ISTR, then the endpoint EP_ID named is serviced |
| UsbHw.UsbDevice.InterruptHandler | firmware/gt1025/ampm_lib/usb/usbhw.c:422-503 | the handler gives the state of IsrSpec |
| UsbHw.UsbDevice.GetFrame | firmware/gt1025/ampm_lib/usb/usbhw.c:413-415 | returns FrameNumber of the state |
| IoFilter.Count | firmware/gt1025/src/hw_config.c:47-77 | one sample on a channel: `highCnt++` for a high read, `lowCnt++` for a low one |
| IoFilter.Sampled | firmware/gt1025/src/hw_config.c:47-77 | channels 0-2 count their pin's read, channel 3 counts the AVLIO4 and the AVLIO5 read, channel 4 and beyond count nothing |
| IoFilter.NewBit | firmware/gt1025/src/hw_config.c:81-84 | the bit is set iff IO_FILLTER_CNT high samples and no low one were seen, or it was set and the samples were not IO_FILLTER_CNT low and no high |
| IoFilter.Settle | firmware/gt1025/src/hw_config.c:81-91 | after the loop body the bit follows NewBit, the counts are 0, bitOld equals bitNew, and newUpdate is raised iff it was raised or the bit differs from bitOld |
| IoFilter.Pass | firmware/gt1025/src/hw_config.c:44-92 | after a pass channels 0-4 are settled from their samples and quiet with bitOld = bitNew, a raised newUpdate stays raised, and channels past 4 are untouched |
| IoFilter.PassFollowsPins | firmware/gt1025/src/hw_config.c:47-58 | from a quiet state channels 0-2 take their pin's level, and flag a change iff it differs from bitOld or one was flagged |
| IoFilter.PassFreezesLastChannels | firmware/gt1025/src/hw_config.c:59-84 | from a quiet state the bits of channels 3 and 4 never change, whatever the pins read |
| IoFilter.PassIdempotent | firmware/gt1025/src/hw_config.c:79-92 | a second pass on the same pin levels changes nothing |
| IoFilter.IoStatus.constructor | firmware/gt1025/src/hw_config.c:16 | the zero-initialised global |
| IoFilter.IoStatus.IoInit | firmware/gt1025/src/hw_config.c:20-36 | updateCnt is 0 and channels 0-3 have bits and counts 0, with newUpdate and every other channel unchanged; a quiet channel 4 makes the whole state quiet |
| IoFilter.IoStatus.IoControl | firmware/gt1025/src/hw_config.c:38-94 | updateCnt grows by one and, IO_FILLTER_CNT being 1, every call makes a Pass, leaving the channels quiet |
| IoFilter.IoStatus.Tally | firmware/gt1025/src/hw_config.c:47-50 | one sample is counted on one channel |
| IoFilter.IoStatus.Sample | firmware/gt1025/src/hw_config.c:47-77 | the sampling part gives Sampled |
| IoFilter.IoStatus.SettleAll | firmware/gt1025/src/hw_config.c:79-92 | the `for` loop settles channels 0-4 and leaves the rest alone |

## Left out

- USB_Init (usbhw.c:89-94) enables the peripheral clock and the NVIC interrupt. These are calls into the device library, with no state of this layer.
- USB_Resume, USB_WakeUpCfg, USB_Configure and USB_DirCtrlEP (usbhw.c:176-222, 281-283) have empty bodies.
- The bodies of the callbacks `USB_P_EP[n]` and `USB_*_Event` belong to the class layer. Only the calls are recorded, in order.
- Concurrency. The hardware setting ISTR or CTR bits while the handler runs, and preemption, are not modelled. The bus part sees no change to ISTR from the hardware. The endpoint loop sees a given sequence of ISTR values.
- Physical PMA layout. The model does not capture:
  - the `USB_PMA_ADDR` base;
  - the 32-bit stride of the PMA on the APB bus;
  - the packed 16-bit accesses, or where the caller's byte buffer sits;
  - the buffer descriptor table living inside the PMA. It is a separate array, so it cannot be overwritten through a PMA buffer.

  PMA half-word `a / 2` holds byte address `a`, low byte first.
- Double buffering is unsupported by the code. Only the EP_KIND bit of USB_ConfigEP is modelled.
- EP_BUF_ADDR is a configuration value (`Config.epBufAddr`), because `sizeof(EP_BUF_DSCR)` and USB_EP_NUM come from headers that are not part of this model.
- The register masks take the RM0008 values listed above, because `usbreg.h` is not part of this model.
- UsbHw.UsbDevice.ConfigEp: requires the new buffer to fit in the 512-byte PMA. The code has no check, and its 16-bit `FreeBufAddr` would wrap. That wrap-around is not modelled.
- UsbHw.UsbDevice.ReadEp: requires the receive buffer to lie in the PMA and the caller's buffer to hold `(cnt + 1) / 2 * 2` bytes. The code trusts the hardware count and its caller for both.
- UsbHw.UsbDevice.WriteEp: requires the transmit buffer to lie in the PMA and the caller's buffer to hold `(cnt + 1) / 2 * 2` bytes.
- UsbHw.UsbDevice.ReadEp and UsbHw.UsbDevice.WriteEp: require the caller's buffer to be distinct from the peripheral's arrays, since the model keeps them apart.
- The GPIO side of hw_config.c is replaced by the pin levels passed to `IoControl`:
  - the pin-direction macros in IO_Init;
  - the LED pin flip and the busy-wait around the first AVLIO5 read (hw_config.c:64-73), which affect only the LED;
  - GPS_Enable and GPS_Disable.
- `ioStatus.din` is declared in `hw_config.h`, which is not part of this model. The model assumes at least five entries, since the filter loop visits five.
- IoFilter.IoStatus.IoControl: `updateCnt` is unbounded, because its declared width is in `hw_config.h`. With IO_FILLTER_CNT = 1, wrap-around would not change which calls make a pass.
- The `time` parameter of IO_Control is unused by the code and left out.
