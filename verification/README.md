# Verification of the bare-metal OpenCL host runtime

The runtime launches kernels on a bare-metal device: it resets the device, loads the program, writes the arguments
into a communication area in device memory, runs the device until a flag in that area says it is done, and copies the
results back. It reaches device memory over a GDB debug link or over PCI windows. This project models that path and
the pieces around it, and proves what each of them is for.

- `Launch.dfy` is the launch protocol of `src/cl_enqueue.c` over the device operations of `Device.dfy`, with the
  argument vector of `Kernel.dfy`, the chunk table and load cache of `Program.dfy`, and the layout of the
  communication area, with its reader, in `CommArea.dfy`.
- `GdbLink.dfy` is the host end of the debug link, byte by byte, talking to the in-order stub of `Stub.dfy` through a
  queue. `Rsp.dfy` is the packet layer (GDB manual, appendix E), `Requests.dfy` the memory commands, `Commands.dfy` the
  texts of the others.
- `Composition.dfy` joins the two: the operations of a launch replayed over the link.
- `Half.dfy` is the binary16 conversion of `include/CL/cl_half.h` against rounding as IEEE 754-2008, section 4.3,
  defines it.
- `Elf.dfy` is the ELF loader, `ElfImage.dfy` a writer whose files it loads, `Registry.dfy` the device list and its
  query, `Pci.dfy` the PCI path.
- `Bits.dfy`, `Codes.dfy`, `DeviceMemory.dfy` and `Objects.dfy` hold what these share.

`dafny verify dfyconfig.toml` checks everything.

What the environment decides is a parameter: the kernel is an arbitrary function on device memory for each run
(`Kernels`); which device calls fail, and what a failed call leaves behind, is an arbitrary `Env`; what the stub prints
and reports, and how often the link damages a command, is an arbitrary `World`; whether an allocation succeeds and what
a callback returns are arguments.

Findings about the code, each stated as a theorem:

- `clSetKernelArg` grows the vector to `index + 1` in 32 bits, so index 0xffffffff empties it and fails; for every other
  index the last value wins (`Kernel.Kernel.SetKernelArg`, `Kernel.LastWriterWins`).
- The 20-byte request buffer of a memory read cuts off the low digits of the length when address and length have more
  than 17 digits together; a full piece is read whole exactly below 2^56 (`Requests.ReadRequestComplete`), and a whole transfer exactly if
  every piece is (`Requests.FilledFlat`, `Requests.FilledShort`).
- The ELF header checks keep the tables inside the file exactly when the 64-bit end of neither table wraps around
  (`Elf.HeaderBounds`); a 64-bit file whose table wraps is accepted (`ElfImage.WrappedHeader`).
- `dev_add` keeps the list null-terminated exactly when the device comes with a null link (`Registry.Registry.Add`);
  `dev_remove` does not clear it, and adding a removed device again breaks the list (`Registry.Registry.AddedAgain`).
- The bounds test of a slot in the communication area is right exactly when the end of the slot does not wrap around
  to below the end of the area (`Launch.ExceedsExactly`), and the window test of the PCI path likewise
  (`Pci.PassesExactly`); a range that wraps is accepted there (`Pci.WrappedRange`).
- A query with an array of capacity zero still writes a device (`Registry.Registry.GetDevices`); the only caller in
  the repository excludes it.
- A failed allocation in `prg_set_num_chunks` leaves a null table with the old count, which `prg_get_chunk` would
  follow; the program is usable afterwards exactly if it had no chunks (`Program.Program.SetNumChunks`).
- After the launch timeout the device is left running; this and a broken magic number are the only failures that are
  neither a device fault nor an argument that cannot be sent (`Launch.EnqueueNDRangeKernel`). Over the debug link the
  next launch does not get out of it: the reset takes the late '+' of the run for its own acknowledgement, the running
  stub ignores the command, and the device is not reset. OpenOCD's reset then waits for ever; QEMU's takes the first
  output of the kernel for the answer, or waits for ever if there is none (`GdbLink.Link.OpenocdReset`,
  `GdbLink.Link.QemuReset`).

## Model

| member | source | states |
|---|---|---|
| Launch.EnqueueNDRangeKernel | src/cl_enqueue.c:339-519 | A successful launch leaves the device halted after as many stops as runs, at most 10000, with the first run that left the done flag set; each buffer the kernel may write to equals the bytes of the buffer's last slot, every other buffer is unchanged. Every memory access meets a halted device, on every path and after any fault. If the device was run at all, timeouts included, every argument can be sent, every chunk is loaded, and the kernel was given an area that reads as exactly the arguments at the call: as many entries as the header says, the name first with index 0xffffffff, each argument under its own index with its type, size and bytes. The stages of memory it reports are the device's own: the one after the reset follows from the device at the call, the one after the chunk loop agrees with the device's memory at the end outside the area and what the kernel may touch, also after a refusal or a timeout, and the one handed to the kernel is what the device's record of runs shows. Whenever the chunk loop was completed, memory is byte for byte what writing every chunk makes of it, and the kernel was given every chunk that shares no byte with the area. After every end without a fault, timeouts included, memory is what that many runs make of what was sent. A failure returns the error of the device call that failed, or of the first argument that is unused, null or too large, or reports a timeout with the device left running or a broken magic number. The load cache stays in order whatever fails. In the numbers of the format and the flag bits: the area starts with the bytes of 0xbadcafe5, the count and eight zero bytes; a direct value has type 1 and its bytes; a buffer has type 2 and, exactly with bit 0 or 2 of its flags set, its bytes, and otherwise whatever was in memory in that place; the name sent ends in its first zero byte. Exactly the buffers with bit 0 or 1 set are read back. |
| Launch.LaunchAll | src/cl_enqueue.c:356-391 | Over any sequence of launches of one program on one device, failed ones included, the load cache agrees with always reloading: in every launch that completed its chunk loop, memory afterwards holds every chunk and is byte for byte what writing all of them makes of it; every launch that ran the device, whatever it returned, gave the kernel all chunks outside the area. The launches are the resets and runs that the device itself recorded, in order: each launch starts from the recorded device, its memory after the chunk loop is that of the device before the next one outside the area and what the kernel may touch, and what it sent is what the recorded run was given; a successful one ran. |
| Launch.LoadChunk | src/cl_enqueue.c:368-391 | One turn of the chunk loop skips, or writes and marks the chunk loaded, or fails and changes no entry; the cache stays in order in each case. |
| Launch.LoadChunks | src/cl_enqueue.c:362-391 | After the chunk loop device memory holds every chunk and is byte for byte what writing all of them makes of it, although read-only loaded ones were skipped; every chunk is marked, and the traffic is exactly one write for each other non-empty chunk, in order. A failure leaves the entries from the failing one on as they were. |
| Launch.EnqueueArg | src/cl_enqueue.c:198-271 | Whatever wraps at 2^64: an unused or null argument, and one that fails the bounds test, is refused untouched; otherwise header and payload are written where the 64-bit cursor points, and the cursor moves to the next 8-byte boundary. A slot that does not wrap changes nothing outside itself. A direct value is written with type 1, a buffer with type 2, and the payload of a buffer exactly if bit 0 or bit 2 of its flags is set. |
| Launch.ExceedsExactly | src/cl_enqueue.c:248-248 | The exact condition under which the 64-bit bounds test agrees with the true sums; for an area that does not wrap: the slot does not wrap either, or wraps to the end of the area or behind it. |
| Launch.SendArgs | src/cl_enqueue.c:406-447 | Sending leaves the area header and all slots in memory, name first, changes nothing outside the area, and fails with the error of the device or of the first argument that cannot be sent or does not fit. |
| Launch.GivenAll | src/cl_enqueue.c:406-447 | What was sent reads back, from the address of the area alone, as the arguments in order, the name first with index 0xffffffff and argument i under index i. |
| Launch.ShownAll | src/cl_enqueue.c:198-271 | The same in the numbers of the format, with each buffer's payload decided by bits 0 and 2 of its flags, and nothing written in the place of a payload that is not sent. |
| Launch.RunAndPoll | src/cl_enqueue.c:449-490 | Polling ends after as many stops as runs with the first run that left the done flag set, or with a broken magic number and a halted device, or after 10000 stops with the device running, or with a device fault. Memory is what the kernel made of it in that many runs. |
| Launch.PollOnce | src/cl_enqueue.c:458-485 | One turn stops the device, tests the header the kernel left, and runs on exactly if the magic number is whole and the done flag clear. |
| Launch.DequeueArg | src/cl_enqueue.c:273-337 | Whatever wraps at 2^64: a buffer with bit 0 or bit 1 of its flags set is filled with the bytes behind the cursor's header, every other argument is only stepped over, the cursor moves as in sending, and the refusals are those of sending. |
| Launch.RecvArgs | src/cl_enqueue.c:492-516 | After a successful send no bounds test of the read-back can fail, and each buffer ends up with its last slot if the kernel may write to it. |
| Launch.RecvFits | src/cl_enqueue.c:422-447 | The read-back cursor in front of each argument passes the same test as the write cursor did. |
| Launch.CachedThrough | src/cl_enqueue.c:376-378 | Neither the kernel nor the communication area disturbs a read-only chunk, so the cache survives a launch. |
| Composition.Replay | drivers/device.c:203-288 | The fault-free operations of a device since its last reset, sent over the link, leave the stub's device in the same state and hand back what the reads returned. |
| Composition.LaunchAddressable | src/cl_enqueue.c:356-516 | A launch transfers nothing but its chunks and bytes of its area, so the link can address all of it. |
| Composition.LaunchOverLink | src/cl_enqueue.c:356-518 | For chunks inside the 64-bit address space and an area below 2^56: after a successful launch over the link the stub's device is halted in the state the launch left, the queue is empty, the link handed back exactly what the reads of the launch returned, and each writable buffer equals its last slot in the stub's memory. |
| CommArea.SlotsAreAllocation | src/cl_enqueue.c:247-268 | With an aligned area every slot, also a single one, is aligned, behind the area header and strictly inside the area, and any two are disjoint; the cursor passes the end by rounding at most. |
| CommArea.ReaderRecovers | include/drivers/comm.h:14-25 | A reader that walks by each header's size field and 8-byte rounding finds every entry's type, index and size, and the payload of every one that was sent. |
| CommArea.AreaRoundTrip | include/drivers/comm.h:12-25 | A reader that takes the count from the area header finds the magic number, a clear done flag, and exactly that many entries with their fields and payloads. |
| CommArea.HeaderFields | src/cl_enqueue.c:243-245 | The header of a slot decodes to the type, index and size it was written with. |
| CommArea.CursorOrder | src/cl_enqueue.c:258-268 | Each slot ends at or before the start of every later one. |
| CommArea.AreaKeepsNext | src/cl_enqueue.c:258-264 | Sending an argument without its payload leaves what was in the payload's place, and so do all later ones. |
| CommArea.HeaderReads | include/drivers/comm.h:14-19 | The area header in memory is the bytes e5 af dc ba, the count, and eight zero bytes. |
| Program.Program.SetNumChunks | drivers/program.c:66-87 | A fresh table of zeroed chunks; without memory the table is gone and its count stays, so the program is usable exactly if it had no chunks. |
| Program.Program.GetChunk | drivers/program.c:89-105 | Chunk `i`, or an error exactly outside the table. |
| Program.Program.SetChunk | drivers/program.c:107-122 | Replaces chunk `i` with its index corrected and no other; an error exactly outside the table. |
| Kernel.Kernel.SetNumArgs | drivers/kernel.c:130-168 | The vector is cut or padded with unused slots, keeping the common prefix; without memory it is unchanged. |
| Kernel.Kernel.GetArg | drivers/kernel.c:170-189 | Slot `i`, or an error exactly outside the vector. |
| Kernel.Kernel.SetArg | drivers/kernel.c:191-206 | Replaces slot `i` with its index corrected and no other; an error exactly outside the vector. |
| Kernel.Kernel.SetKernelArg | src/cl_kernel.c:86-136 | Places the value at its index, growing the vector with unused slots: eight bytes make it the buffer whose handle is found there, any other size a direct value of that size at the caller's address. Fails on a null value, without memory, and at index 0xffffffff, where the vector is lost. |
| Kernel.SetKernelArgs | src/cl_kernel.c:86-136 | After any sequence of calls on one object the last call for an index decides its slot, a buffer if it gave eight bytes and otherwise a direct value of its size and address; all other slots are unused, and the vector ends at the largest index. |
| Kernel.LastWriterWins | src/cl_kernel.c:101-133 | After any sequence of values set the vector has one slot more than the largest index set, and each slot holds the last value set for it or is unused. |
| Kernel.NeverSet | src/cl_kernel.c:101-133 | Nothing was ever set past the end of the vector. |
| Device.Device.Reset | drivers/device.c:203-216 | A successful reset halts the device and starts a new trace; a failed one takes effect, or not, or leaves a running kernel half-way. |
| Device.Device.Run | drivers/device.c:218-231 | Starts a halted device; a failure is recorded with its error and takes effect or not. |
| Device.Device.Stop | drivers/device.c:233-246 | Halts a running device after the kernel's work; a failure is recorded with its error and takes effect, or not, or leaves the kernel half-way. |
| Device.Device.ReadMem | drivers/device.c:248-267 | Asked only of a halted device: the bytes of its memory; zero bytes cause no call. |
| Device.Device.WriteMem | drivers/device.c:269-288 | Asked only of a halted device: exactly the range is written, a failure changes nothing outside it; zero bytes cause no call. |
| Rsp.UnescapeEscape | drivers/gdb/gdb_remote.c:90-107 | Unescaping an escaped payload gives it back; the stub's decoding is a definition of its own. |
| Rsp.EscapeByte | drivers/gdb/gdb_remote.c:90-107 | 0x23, 0x24, 0x2a and 0x7d go out as 7d 03, 7d 04, 7d 0a and 7d 5d, every other byte as it is. |
| Rsp.EscapeShape | drivers/gdb/gdb_remote.c:90-107 | In an escaped payload the escape character stands only in front of an escaped byte, and the length at most doubles. |
| Rsp.EscapeClean | drivers/gdb/gdb_remote.c:90-107 | An escaped payload contains no frame or run-length character. |
| Rsp.HexCharacters | drivers/gdb/gdb_remote.c:114-114 | Digits are printed in lower case and read in either case. |
| Rsp.HexNum8Width | drivers/gdb/gdb_remote.c:385-385 | An address is printed with eight digits, or with more only if it needs them. |
| Rsp.HexNum8Value | drivers/gdb/gdb_remote.c:385-385 | A printed address or length reads back as its value. |
| Rsp.HexNumPrefix | drivers/gdb/gdb_remote.c:375-385 | Cutting digits off a printed number divides it by a power of sixteen. |
| Requests.ReadRequestComplete | drivers/gdb/gdb_remote.c:375-385 | The exact condition under which the 20-byte request keeps the whole length; below 2^56 always, from there on never for a full piece. |
| Requests.FilledFlat | drivers/gdb/gdb_remote.c:437-460 | If no request is cut off, the pieces of a read together are one flat read. |
| Requests.FilledShort | drivers/gdb/gdb_remote.c:437-460 | If one is, some byte of the buffer is never delivered, whatever the memory. |
| Requests.BelowComplete | drivers/gdb/gdb_remote.c:385-385 | Below 2^56 no request is cut off. |
| Requests.ReadRequestReply | drivers/gdb/gdb_remote.c:385-387 | The stub answers the request, truncated or not, with the bytes it asks for and changes nothing. |
| Requests.HexRequestEffect | drivers/gdb/gdb_remote.c:481-490 | The stub carries out an M packet as one write of the bytes. |
| Requests.BinRequestEffect | drivers/gdb/gdb_remote.c:563-569 | The stub carries out an X packet as one write of the bytes. |
| Requests.DecodeHexBytes | drivers/gdb/gdb_remote.c:484-488 | Hexadecimal encoding and decoding are inverse. |
| Stub.HearFrame | drivers/gdb/gdb_remote.c:76-122 | An idle stub hears a whole frame as one packet: no byte of an escaped body is taken for framing. |
| GdbLink.BuildFrame | drivers/gdb/gdb_remote.c:76-122 | The loop builds exactly the frame of the payload and stays below twice its length plus 10. |
| GdbLink.HearCommand | drivers/gdb/gdb_remote.c:76-149 | A framed command is executed and acknowledged, or refused by a damaged link without effect. |
| GdbLink.WritesAgree | drivers/gdb/gdb_remote.c:462-621 | For every address and byte string the M packet and the X packet have the same effect on the stub and draw the same answer; accepted, both are one flat write. |
| GdbLink.Link.Send | drivers/gdb/gdb_remote.c:76-149 | With nothing unread the command is executed once however often the link refuses it, and the acknowledgement consumed is its own. With bytes unread the first of them decides the result, and the frame is sent once, executed or refused. What goes out is the frame, once for each refusal and once more. |
| GdbLink.Link.SendInterrupt | drivers/gdb/gdb_remote.c:60-74 | The stub halts and reports. What goes out is the byte 3. |
| GdbLink.Link.Receive | drivers/gdb/gdb_remote.c:151-215 | A frame behind any number of stale acknowledgements is consumed whole and exactly, its body delivered up to the caller's buffer, and the answer is plus or minus as the checksum demands; the local buffer holds it up to 4092 bytes, beyond which the call fails. |
| GdbLink.Link.Acknowledge | drivers/gdb/gdb_remote.c:201-212 | Plus exactly for a matching checksum, nothing if no answer is wanted. |
| GdbLink.Link.ReceiveReply | drivers/gdb/gdb_remote.c:151-215 | The next reply is consumed and nothing behind it, and answered with a plus. |
| GdbLink.Link.DiscardAll | drivers/gdb/gdb_remote.c:217-233 | Whatever frames are left, exactly they and the reply to `vMustReplyEmpty` are consumed: the queue is empty afterwards. |
| GdbLink.Link.Probe | drivers/gdb/gdb_remote.c:265-306 | The link is synchronised whatever frames were left over. |
| GdbLink.Link.Run | drivers/gdb/gdb_remote.c:321-339 | What goes out is `$vCont;c#a8`; the stub's device is started, and its stray output is still in the queue. |
| GdbLink.Link.Stop | drivers/gdb/gdb_remote.c:341-370 | The device is halted and the leftover acknowledgement, all output and all stop reports are drained. It begins with the byte 3. |
| GdbLink.Link.OpenocdReset | drivers/gdb/gdb_remote_openocd.c:19-47 | On a ready link any console output in front of the final OK is consumed, and the device is halted. On a link with a run unfinished the device is not reset: the call waits for ever exactly if no output of the kernel reads OK, and reports success otherwise. The command is the text `qRcmd,` with `reset halt` in hexadecimal. |
| GdbLink.Link.AwaitOk | drivers/gdb/gdb_remote_openocd.c:37-47 | The reset loop reads whole replies up to the first OK, and waits for ever exactly if there is none. |
| GdbLink.Link.QemuReset | drivers/gdb/gdb_remote_qemu.c:19-47 | On a ready link one reply is consumed and the device is reset; the call succeeds exactly if the reset prints nothing. On a link with a run unfinished the device is not reset: the call waits for ever exactly if the kernel has put out nothing, and otherwise fails unless the first output reads OK. The command is the text `qRcmd,` with `system_reset` in hexadecimal. |
| GdbLink.Link.ReadMemOne | drivers/gdb/gdb_remote.c:372-435 | The requested bytes go to their place in the buffer, no others change. |
| GdbLink.Link.ReadMem | drivers/gdb/gdb_remote.c:437-460 | The buffer gets exactly what the requests of the pieces ask for; if none of them is cut off, that is one flat read of the range. |
| GdbLink.Link.WriteMemOne | drivers/gdb/gdb_remote.c:462-516 | One piece is written as it is; a longer one is refused. |
| GdbLink.Link.WriteMemHex | drivers/gdb/gdb_remote.c:518-541 | The pieces together are one flat write. |
| GdbLink.Link.WriteBinOne | drivers/gdb/gdb_remote.c:543-596 | One piece is written as it is; a longer one is refused. |
| GdbLink.Link.WriteMemBin | drivers/gdb/gdb_remote.c:598-621 | The pieces together are one flat write. |
| GdbLink.Link.Perform | drivers/gdb/gdb_remote.c:321-621 | Every operation does to the stub's device what it stands for, with the right answer, and leaves the link aligned. |
| GdbLink.Link.Session | drivers/gdb/gdb_remote.c:217-621 | For every sequence of probes, resets, reads, writes, runs and stops in which each run is followed by a stop, over a link that may damage commands: the stub's device and all answers are those of the flat specification, every byte is consumed by its own command, and the queue is empty after each operation but a run. |
| Half.FromFloat | include/CL/cl_half.h:109-229 | For every binary32 pattern and mode: the binary16 value that rounding in that direction prescribes, across normal, denormal, carry, overflow and underflow cases, with sign; NaN stays a quiet NaN with its leading payload. A NaN has the bit of weight 512 set. |
| Half.FromDouble | include/CL/cl_half.h:235-355 | The same for every binary64 pattern. |
| Half.ToFloat | include/CL/cl_half.h:361-428 | The binary32 pattern of exactly the same value, NaN with the quiet bit set and its payload kept; the normalisation loop ends. |
| Half.RoundingRule | include/CL/cl_half.h:187-219 | Going up or down from the lower neighbour by the source's rules is rounding among all representable values. |
| Half.FiniteRounding | include/CL/cl_half.h:170-228 | Shifting out the rest and adding its carry, in the normal and the denormal case, is rounding. |
| Half.NormalPosition | include/CL/cl_half.h:181-186 | The shifted-out bits are the exact distance to the lower neighbour, for normal results. |
| Half.DenormalPosition | include/CL/cl_half.h:170-182 | The same for denormal results. |
| Half.RestDecides | include/CL/cl_half.h:184-219 | Comparing the rest with half a unit decides as comparing the exact values does. |
| Half.OverflowPosition | include/CL/cl_half.h:61-82 | The overflow helper rounds every value past the largest exponent. |
| Half.UnderflowPosition | include/CL/cl_half.h:87-103 | The underflow helper rounds every nonzero value below half the smallest denormal. |
| Half.RoundingUnique | include/CL/cl_half.h:109-355 | The specification determines the result bit for bit. |
| Half.RoundingMonotone | include/CL/cl_half.h:109-355 | Conversion is monotone in every mode. |
| Half.NearestOverflow | include/CL/cl_half.h:61-82 | Rounding to nearest overflows exactly from 65520 on. |
| Half.HalfFloatHalf | include/CL/cl_half.h:109-428 | Widening and converting back is the identity on every pattern but signalling NaNs, which come back quiet, in every mode. |
| Half.WideningAgrees | include/CL/cl_half.h:109-355 | A float and any double that stands for exactly its value convert to the same pattern. |
| Half.WidenedAgrees | include/CL/cl_half.h:109-355 | Every float, NaN and denormals included, has a double of the same value, and converting either gives the same result in every mode. |
| Elf.ParseEncoded | drivers/program_elf.c:342-588 | Loading inverts encoding: a program encoded in either width gives exactly its chunk table, each PT_LOAD segment at its own index and zero chunks elsewhere, read-only exactly if bit 1 of the segment's flags is clear, whatever the other bits, and its last communication area; it is refused exactly if a section is missing. |
| Elf.WidthIndependent | drivers/program_elf.c:242-588 | The same program in a 32-bit and in a 64-bit file loads to the same table and area. |
| ElfImage.RoundTrip | drivers/program_elf.c:242-588 | Every program whose tables, addresses, entry point and names fit a width, with any segment flags and any entry point that 4 divides, has a file in that width; the file is accepted and loads to the program. |
| ElfImage.EmitAccepted | drivers/program_elf.c:190-240 | The written header passes every check. |
| Elf.ChecksDecide | drivers/program_elf.c:190-240 | In an accepted header each check decides by itself: type 2 and machine 243 only, any entry point that 4 divides and no other, any string table index below the count, any file that reaches to both table ends. |
| Elf.Load | drivers/program_elf.c:669-721 | The loader computes the parse of the image and stores it in the program, or refuses it with the program's area unchanged, and with its chunks unchanged if the header is refused; without memory it fails behind the header checks. After success chunk `i` mirrors program header `i` of the image: nothing for a type other than 1, and otherwise its address, the file's bytes at its offset, and read-only exactly if bit 1 of its flags word is clear. |
| Elf.ElfInfo.ReadElf | drivers/program_elf.c:242-331 | The header fields of the file's class; refused exactly if a table entry is smaller than its struct. |
| Elf.ElfInfo.ReadPhs | drivers/program_elf.c:342-376 | The loop reads every program header. |
| Elf.ElfInfo.ReadShs | drivers/program_elf.c:467-503 | The loop reads every section header. |
| Elf.ElfInfo.ReadPh | drivers/program_elf.c:378-435 | The chunk table mirrors the program headers, address, bytes and the bit for writing, or memory runs out. |
| Elf.ReadOnlyBit | drivers/program_elf.c:425-425 | A segment is read-only exactly if bit 1 of its 32-bit flags is clear. |
| Elf.ElfInfo.ReadSections | drivers/program_elf.c:514-588 | The area is that of the section scan; the program's is replaced only on success. |
| Elf.ScanFinds | drivers/program_elf.c:545-580 | The scan succeeds exactly with a ".comm" section of the right magic and a ".comm_area", and the last of the latter wins. |
| Elf.NameMatches | drivers/program_elf.c:505-512 | Comparing names in the string table compares the section names. |
| Elf.NamesSpelled | include/drivers/comm.h:6-7 | The two section names are the texts `.comm` and `.comm_area`. |
| Elf.HeaderDecodes32 | drivers/program_elf.c:246-258 | Each header field is read from its offset in the 32-bit struct. |
| Elf.HeaderDecodes64 | drivers/program_elf.c:279-291 | The same for the 64-bit struct. |
| Elf.PhDecodes32 | drivers/program_elf.c:345-354 | Each program header field is read from its offset. |
| Elf.PhDecodes64 | drivers/program_elf.c:363-372 | The same for the 64-bit struct. |
| Elf.ShDecodes32 | drivers/program_elf.c:470-480 | Each section header field is read from its offset. |
| Elf.ShDecodes64 | drivers/program_elf.c:489-499 | The same for the 64-bit struct. |
| Elf.HeaderBounds | drivers/program_elf.c:202-230 | An accepted header has every entry of both tables in the file, if and only if neither 64-bit table end wraps. |
| Elf.HeaderBounds32 | drivers/program_elf.c:202-230 | In a 32-bit file every entry is in the file. |
| ElfImage.WrappedHeader | drivers/program_elf.c:207-210 | A concrete 64-bit file whose header is accepted although its table lies outside the file. |
| Elf.SegmentTraffic | drivers/program_elf.c:410-432 | Loading a freshly parsed table writes each loaded segment once, in order, and causes no traffic for other program headers. |
| Registry.Registry.Search | drivers/device.c:175-186 | The walk finds the device and its predecessor, or the end of the list. |
| Registry.Registry.Add | drivers/device.c:133-163 | The device becomes the last one, enabled exactly if its probe does not fail; one already listed is refused. The list stays a list exactly if the device's link was null. |
| Registry.Registry.AddedAgain | drivers/device.c:195-198 | Adding two devices, removing the first and adding it again leaves a cycle: the second device links back to the first. |
| Registry.Registry.Remove | drivers/device.c:165-201 | The device is unlinked and disabled, the others keep their order, whatever the callback returns. |
| Registry.Registry.Replay | drivers/device.c:133-201 | Over every sequence of additions and removals of fresh devices the list stays acyclic and free of repetitions, holds what the edits say in order, and its length is `in_dev_num`. |
| Registry.DropWithout | drivers/device.c:197-197 | Unlinking a device removes it and nothing else from the list. |
| Registry.MatchesPrefix | drivers/device.c:77-79 | A query that stops early has found a prefix of the matching devices. |
| Registry.Registry.GetDevices | drivers/device.c:56-90 | The array gets the first matching devices in list order, as many as fit, and nothing behind them; without an array all are counted; with capacity zero the first device of the type is still written if it is enabled. A device is of the type asked for if the two words have a bit in common; the positions written are exactly those of the first enabled such devices. |
| Registry.Registry.GetDeviceIDs | src/cl_device.c:9-45 | The positions written are exactly those of the first num_entries enabled devices whose type has a bit in common with the one asked for, in list order, and success means that there is one; bad arguments and failures leave the array alone. |
| Registry.TypesShare | drivers/device.c:67-67 | The test for a type is whether some bit is set in both words. |
| Registry.AllTypes | drivers/device.c:67-67 | CL_DEVICE_TYPE_ALL has a bit in common with every type that is not zero and has 32 bits. |
| Pci.Move | drivers/pci/pci_sysfs.c:26-49 | One assignment of the copy loops is an aligned load and an aligned store of its width. |
| Pci.Copy | drivers/pci/pci_sysfs.c:37-56 | Whatever the alignment of the two ends, exactly `n` bytes are copied, with loads and stores of host memory that are all aligned. |
| Pci.PassesExactly | drivers/pci/pci_sysfs.c:63-63 | For every 64-bit window and range: the test is right if and only if neither end wraps without the other, or the one that wraps falls on the right side anyway. |
| Pci.WrappedRange | drivers/pci/pci_sysfs.c:63-63 | A concrete range that passes the test of a window that does not hold it. |
| Pci.ScanSound | drivers/pci/pci_sysfs.c:58-89 | For a range that does not wrap, the scan succeeds exactly if one window holds it all, and what it takes holds it. |
| Pci.Bars.GetAddr | drivers/pci/pci_sysfs.c:58-89 | For every 64-bit range the scan takes the first window whose test passes, with the host address that window gives, and fails exactly if none does. That address is the BAR's base plus the window's offset in the BAR plus the distance from the window's start. |
| Pci.Bars.ReadMem | drivers/pci/pci_sysfs.c:368-387 | For every 64-bit range: the bytes behind the window taken are copied to the buffer, or nothing is done exactly if no test passes. A read that is rightly accepted returns the bytes of flat device memory and leaves that memory alone. |
| Pci.Bars.WriteMem | drivers/pci/pci_sysfs.c:389-408 | For every 64-bit range: the buffer is copied to where the window taken puts the range, or nothing is done exactly if no test passes. A write that is rightly accepted is a write to flat device memory as seen through every window. |
| Pci.Bars.ClearOutside | drivers/pci/pci_sysfs.c:368-408 | A buffer outside the BARs overlaps no range that is rightly taken, as both transfers ask. |
| Pci.Bars.PlacedInside | drivers/pci/pci_sysfs.c:67-72 | No other address is placed where a range is placed. |

## Left out

- Sockets, address lookup, retries on EINTR, files, mmap, sysfs and environment variables: the link is a byte queue, a file is an image, a mapped BAR is a range of one host memory.
- Real time: the poll loop is bounded by its 10000 turns, the pauses are not modelled.
- The device-side runtime and kernel code, which are not in the repository: an arbitrary change of memory for each run.
- Stub entry points that only return an error, the dispatch table, query strings, logging and dump functions, unique ids, magic checks: no content; validity of handles is a precondition.
- `mem_read_buffer` and `mem_write_buffer` of drivers/mem.c, and buffers whose `ptr` overlaps another's: each buffer is a byte sequence of its own.
- Atomics and threads: the device counter and the list are edited by one thread.
- BAR sizing, device enumeration and the register accesses of the PCI driver.
- The `default` branch of the argument type switches: an argument has one of the three types.
- The late error paths of the one-piece transfers, which return success (drivers/gdb/gdb_remote.c:434, 515 and 594): they need a stub that refuses or truncates a reply, which the modelled stub never does.
- Failing allocations of the transfer buffers (drivers/gdb/gdb_remote.c:392, 475 and 557) and failing socket calls.
- The test of the request length in `gdb_remote_send` (drivers/gdb/gdb_remote.c:108): the buffer is sized so that it cannot fail.
- Failure to allocate the ELF parser's own record, which the source does not check, and files whose segment or section contents lie outside the image: the loader reads whatever memory holds there.
- Launch.EnqueueNDRangeKernel: assumes that no sum of area bounds, cursor and argument size reaches 2^64; the source does not check this. The claim about the load cache assumes disjoint chunks, a reset that keeps memory, and read-only chunks that neither the kernel nor the area touches.
- Launch.LaunchAll: the kernels and buffers are fixed before the sequence; the host may not resize a buffer between two launches of it.
- Composition.LaunchOverLink: speaks of launches that succeed, with chunks inside the 64-bit address space and an area below 2^56, which the link can address whole.
- Program.Program.SetNumChunks: the null table that a failed allocation leaves is an empty one here, beside the count that stays; reading from it is excluded by a precondition, where the source would follow the null pointer.
- Device.Device.Stop: what a kernel that was left half-way did to memory is any effect that one of its runs may have.
- GdbLink.Link.Send: commands sent without an acknowledgement are assumed to arrive intact; the source does not resend them. A '-' in front of the queue is excluded; no operation of a session leaves one.
- GdbLink.Link.Receive: the one length whose checksum bytes would land outside the 4096-byte buffer is a precondition.
- GdbLink.Link.Stop: assumes at least one stop report for each run, no empty reply among them, and texts of at most 4091 bytes without '#' or NUL.
- GdbLink.Link.Session: over QEMU the reset command is assumed to print nothing, because only one reply is consumed.
- Registry.Registry.Replay: no device is added again after it was removed; such a device keeps its old link.
- Registry.Registry.GetDevices: an array has at least one element, because the source writes one even for capacity zero.
- Pci.Bars.WriteMem: assumes a table that gives each device address one place, and a buffer that does not overlap the place where the range is taken to lie; where a copy into an overlapping buffer would end is not stated, nor which host memory a wrongly accepted range reaches is mapped.
- Pci.Copy: source and destination do not overlap.
- Half.ToFloat: the value is stated; the code works on a union of float and bits, which is not modelled.
