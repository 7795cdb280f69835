# A verified model of da-boot

da-boot boots MediaTek devices from a host computer. The host puts a small payload on the device; the
payload finds itself a place in memory, talks to the host over a framed byte protocol, stores what the
host sends, hooks a function of the boot loader, and jumps to it. This project models the parts of that
chain in which a mistake corrupts memory or hangs the device, and proves what they promise.

| Files | What they model |
|---|---|
| `Bytes`, `Bits`, `Ram` | 8-, 16- and 32-bit words, byte memory, bitwise and and or on the model's integers and what the source's masks come to |
| `Thumb`, `Translator`, `Hook`, `HookTheorems`, `HookWitness`, `Revert` | an abstract Thumb-2 machine with IT blocks; the prologue translator as a function; what a hook means when the machine runs, and inputs at which it means something else |
| `Thumb2Reader`, `Thumb2Writer`, `Interceptor`, `Cache` | the interceptor's classes and loops, proved against the above; cache maintenance |
| `Params`, `Relocation`, `Placement`, `Bump`, `Messages` | blacklist and first-fit search, self-relocation, placement over the whole boot and any session, the heap |
| `Codec`, `Wire`, `DaProtocol`, `Device`, `OwnMemory` | postcard encoding, the wire format spelled out, framing through one stale buffer, the device's handler loop with its hooks and its table in memory, and which requests endanger the payload itself |
| `Lockstep`, `LockstepSafety`, `LockstepTheorems`, `LockstepProgress`, `Turns` | host and device as two machines that move one byte a step over two queues, and why the device machine is the handler class |
| `HostExt`, `Plans`, `Selector` | chunked upload and download, the host's whole boot session, and exactly when it succeeds |
| `Roles`, `Derive`, `DeriveSemantics`, `DeriveTheorems`, `DeriveDialogue` | the `Protocol` derive macro as a compiler from field roles to programs |

How the pieces fit together:

- **Interceptor.** `Interceptor.Replace` runs the source's decode, copy and materialise loop on real memory and
  is proved equal to a translation function. The machine theorems are about that function: the trampoline
  means what the relocated prologue means, the patched target reaches the replacement, the rest of memory
  is untouched.
- **Memory.** First fit is proved sound and complete, then used for an invariant over any sequence of
  messages. The blacklist is both the array the search reads and bytes of the image, and the two stay in step.
  `Messages.BootedIsReady` shows that the boot establishes what a session needs, and
  `Messages.SessionStaysSafe` carries it through the device's own handler in every interleaving.
- **RPC.** The host is any program that sends the raw bytes it announces. The invariant accounts for every
  byte in flight; safety, absence of deadlock, framing and an exact step count per exchange follow. A request
  that makes the payload write over its own image, stack or heap or over the loader it calls, or hook where it
  cannot, leads to a state in which nothing more is claimed, and the theorems say exactly when that state is
  reached.
- **Boot session.** The session method is tied to its course, a function of plan and device, and the course is
  proved to end in the jump exactly under conditions that can be read beforehand. At the jump the memory handed
  over, the live hook and the call of the hooked function's original are what they should be.
- **Derive.** A compiler correctness theorem, and an if-and-only-if between a successful run and the
  dialogue told from the struct's final values.

## Findings

Where the code falls short of what its documentation or its callers rely on, the exact condition is proved.

- A write is not checked against the blacklist, and the payload's table, code and stack lie in the memory it
  fills; so may the loader's routines that it calls for every transfer. `Write` of 144 zero bytes over the table
  leaves it empty (`OwnMemory.ZeroesEmptyTheTable`), so sending the bytes it announces is not enough of a host
  (`HostExt.OverwriteLosesDevice`). The payload's memory and the loader's survive a write, whatever the data, if
  and only if the range misses them (`OwnMemory.OwnSurvivesExactly`, `OwnMemory.TableSurvivesExactly`), and a
  stopped device is lost if and only if the request made was of this kind (`LockstepTheorems.HaltsExactly`). The
  error `DownloadForbidden` that could report it is never sent.
- Hooking LK writes into the image that was just uploaded. Only the bytes under the patch change
  (`Selector.HookLeaves`).
- `ldr` of a literal into sp is turned into `movw`/`movt`, which cannot write sp, and the jump at the trampoline's
  end cuts an IT block short. With no literal load in an IT block, a supported prologue that runs through is
  preserved if and only if it has neither (`HookTheorems.TrampolineExact`; prologues that are not preserved:
  `HookWitness.SpLoadIsNotPreserved` and `HookWitness.OpenBlockIsNotPreserved`).
- A literal load becomes two instructions, or three with the padding. In an IT block the conditions then fall on
  the wrong ones: of `it eq; ldr r0, [pc, #4]` the padding is made conditional and the load is not
  (`HookWitness.LoadInBlockIsNotPreserved`).
- `revert` sizes its copy by an odd address, so it writes one byte past the relocated code, and it restores
  rewritten literal loads not at all. It undoes `replace` exactly when there is no literal load and that byte
  already had the spilled value (`Revert.RevertExact`; `HookWitness.LiteralIsNotRestored` and
  `HookWitness.NextByteIsNotRestored` have a memory for each half).
- The source picks 8 or 10 bytes by testing the target before its Thumb bit is cleared, so the aligned case
  never occurs and ten bytes are always covered (`Translator.AlignedCaseNeverOccurs`).
- `flush_cache` rounds the start down before adding the size, so 64 bytes is one line. It covers its request
  exactly under the condition of `Cache.CacheCoversExactly`, and the patch over a target if and only if the
  patch does not straddle a line (`Cache.PatchFlush`), likewise the trampoline (`Cache.TrampolineFlush`); all of
  these fail at `Cache.FlushWitness`. Both flushes clean nothing when the rounded end wraps around at the end of
  the address space.
- First fit bounds a candidate with a saturating addition. With memory ending at 2^32-1 it can return a
  wrapped range over a forbidden one. It is right for every table and size if and only if memory ends below
  that (`Params.FirstFitExact`, with a concrete table in `Params.SaturationBreaks`).
- A reference field of a protocol struct is always sent, whatever its role asks for. A program that runs
  through follows the roles if and only if every reference asks to be sent
  (`DeriveTheorems.RolesAreFollowedExactly`; `DeriveTheorems.ReceivedSliceIsSent` is a slice that asked to be
  received). An `always` value too big for its field panics at run time (`DeriveDialogue.FieldsFailHow`).
- The documentation of the bump allocator says that it never returns a null pointer. It does, exactly when no
  aligned block fits (`Bump.AllocIs`; a heap and a request in `Bump.AllocRefuses`).
- A comment in the first-fit search says that sizes are aligned to 12; the code rounds them up to a multiple
  of eight, and so does the model.
- `Message::Ack` and `Response::Ack` have the discriminants 0xA0 and 0xDA, but the wire carries positions, and both
  are first; the handshake, in which each side reads the other's kind of ack, depends on it
  (`Codec.AckReadsAsResponse`, `Wire.ResponsesOnTheWire`).
- `status` compares the low 16 bits only, also for a 32-bit field; the model does the same.
- Nothing in the repository calls `Interceptor::init`, although the payload hooks; the model starts from an
  empty pool in order, whose vectors take their first blocks from the heap at the first hook.

## Model

| member | source | states |
|---|---|---|
| Bits.AndSplit | payloads/interceptor/src/thumb2reader.rs:46-79 | the and of two numbers is that of their high parts and that of their low parts, at any bit; the masks below follow |
| Bits.LowMasks | payloads/interceptor/src/thumb2reader.rs:52-72 | the masks of ones (`1`, `7`, `0xF`, `0xFF`, `0xFFF`, `0xFFFF`) take the remainder of every number |
| Bits.AlignMasks | payloads/interceptor/src/lib.rs:171-241 | `& !1`, `& !3`, `& !7` and `& !63` round every word down; the interceptor, the search, the stack set-up and the cache code use them through this |
| Bits.SetLow | payloads/interceptor/src/lib.rs:261 | setting the lowest bit adds one to an even number and leaves an odd one |
| Bits.OrSplit | payloads/interceptor/src/thumb2writer.rs:46-60 | the or of two numbers is that of their high parts and that of their low parts, so fields that do not overlap add up |
| Thumb2Reader.Thumb2Reader.Is32Bit | payloads/interceptor/src/thumb2reader.rs:39-42 | the reader's test is the architecture's split into 16- and 32-bit instructions |
| Thumb2Reader.Thumb2Reader.IsLdr | payloads/interceptor/src/thumb2reader.rs:46-48 | `& 0xF800 == 0x4800` holds of exactly the 16-bit literal loads |
| Thumb2Reader.Thumb2Reader.IsLdrW | payloads/interceptor/src/thumb2reader.rs:60-62 | `& 0xFF7F == 0xF85F` holds of exactly the two first halfwords of a 32-bit literal load |
| Thumb2Reader.Thumb2Reader.ReadLdr | payloads/interceptor/src/thumb2reader.rs:51-57 | register and scaled immediate are those of the ARM decoding of the 16-bit literal load; two bytes are consumed |
| Thumb2Reader.Thumb2Reader.ReadLdrW | payloads/interceptor/src/thumb2reader.rs:64-79 | register, immediate and add flag are those of the ARM decoding of the 32-bit literal load, subtracting form included; four bytes are consumed |
| Thumb2Writer.Thumb2Writer.Write32 | payloads/interceptor/src/thumb2writer.rs:29-38 | appends a nop exactly at an unaligned pointer, then the two halfwords, and nothing else changes |
| Thumb2Writer.MovtwFields | payloads/interceptor/src/thumb2writer.rs:46-60 | the or-ed fields of `movtw` give the two halfwords of the ARM encoding, for every register and immediate |
| Thumb2Writer.MovtwHalves | payloads/interceptor/src/thumb2writer.rs:46-60 | the packed word of `movtw` is the ARM encoding of MOVW or MOVT, first halfword low |
| Thumb2Writer.Thumb2Writer.Jumpout | payloads/interceptor/src/thumb2writer.rs:63-68 | appends padding and a self-contained pc load with its word, with no second padding in between |
| Translator.MovRoundTrip | payloads/interceptor/src/thumb2writer.rs:46-60 | for every register and immediate, decoding the emitted MOVW or MOVT gives the same kind, register and immediate back |
| Translator.MovPairEffects | payloads/interceptor/src/lib.rs:220-247 | running `movw` then `movt` of the two halves leaves the register equal to the 32-bit literal and everything else alone |
| Translator.TranslationBounds | payloads/interceptor/src/lib.rs:195-262 | for every prologue: 10 or 12 bytes are relocated, the trampoline takes at most 48 of its 64 bytes, its body ends on a word boundary, and the 8- or 10-byte patch fits in the relocated bytes |
| Translator.AlignedCaseNeverOccurs | payloads/interceptor/src/lib.rs:195 | for every accepted target the size test picks ten bytes, also over word-aligned code |
| Translator.EmitBound | payloads/interceptor/src/lib.rs:215-256 | from any point of the loop, output plus pending padding grows by at most four bytes per prologue byte |
| Translator.RunPrologue | payloads/interceptor/src/lib.rs:215-256 | running the original prologue on the machine, IT blocks included, has the effect of its decoded instruction list and ends right after the relocated bytes |
| Translator.EmitEffects | payloads/interceptor/src/lib.rs:215-256 | the emitted instructions, padding included, have the effect of the decoded list, from every state |
| Translator.EmitPending | payloads/interceptor/src/lib.rs:215-256 | the emitted code leaves the conditions pending that the prologue leaves, if no literal load lies in an IT block |
| HookTheorems.JumpoutStep | payloads/interceptor/src/thumb2writer.rs:63-68 | one step of the emitted jump continues at the word's address with registers, flags and memory unchanged |
| HookTheorems.TargetReachesReplacement | payloads/interceptor/src/lib.rs:275-283 | entering a hooked target, aligned or not, reaches the replacement with the whole state unchanged |
| HookTheorems.TrampolinePreservesMeaning | payloads/interceptor/src/lib.rs:215-262 | from every state outside an IT block, running the trampoline to its jump ends exactly as running the relocated bytes in the unhooked memory, pc at the first instruction after them; IT blocks may occur if they hold no literal load and end in the relocated bytes |
| HookTheorems.TrampolineExact | payloads/interceptor/src/lib.rs:217-247 | for a supported prologue that runs through, with no literal load in an IT block, the above holds if and only if no literal load writes sp and no IT block runs past the relocated bytes |
| HookWitness.SpLoadIsNotPreserved | payloads/interceptor/src/lib.rs:217-230 | a memory with `ldr.w sp, [pc, #12]` meets every hypothesis of that theorem, runs through, and its trampoline does not |
| HookWitness.LoadInBlockIsNotPreserved | payloads/interceptor/src/lib.rs:246-254 | with `it eq` before a literal load every other hypothesis is met and the prologue runs through, and where the condition fails the trampoline overwrites the register |
| HookWitness.OpenBlockIsNotPreserved | payloads/interceptor/src/lib.rs:258-262 | a prologue that ends in `it eq` meets every hypothesis, runs through, and is preserved from no state |
| HookTheorems.OriginalBehavesAsUnhooked | payloads/interceptor/src/lib.rs:317-324 | in any memory in which the hook is in force, entering what `original` returns behaves, for any number of further steps, as the unhooked function does, as long as later code reads none of the places where that memory differs from the unhooked one |
| HookTheorems.HookOutlives | payloads/interceptor/src/lib.rs:185-314 | through any later `replace` and `revert` of hooks apart from it a hook stays in force, and memory changes in their places only |
| HookTheorems.OriginalOutlivesOtherHooks | payloads/interceptor/src/lib.rs:317-324 | so `original` goes on behaving as the unhooked function, whatever other hooks come and go |
| HookTheorems.TrampolineReadsBack | payloads/interceptor/src/thumb2reader.rs:39-43 | reading the trampoline with the reader's own width test gives exactly the translated instructions, the padding and the final jump; boundaries never drift |
| Hook.InstallIsLive | payloads/interceptor/src/lib.rs:257-283 | after `replace` trampoline and patch are both in memory, and nothing outside 48 bytes of the one and the relocated bytes of the other has changed |
| Hook.MakeHookOutside | payloads/interceptor/src/lib.rs:195-262 | the trampoline and patch that `replace` makes do not depend on what the trampoline's buffer held |
| Hook.OtherHooksStayLive | payloads/interceptor/src/lib.rs:289-314 | installing or reverting one hook leaves every other hook in force |
| Interceptor.Interceptor.TranslateInstruction | payloads/interceptor/src/lib.rs:216-255 | one turn of the loop consumes the instruction at the reader and appends its translation |
| Interceptor.Interceptor.TranslatePrologue | payloads/interceptor/src/lib.rs:215-256 | the loop appends the translation of the whole prologue, although it reads memory while writing it |
| Interceptor.Interceptor.WriteTrampoline | payloads/interceptor/src/lib.rs:202-264 | memory holds the trampoline and differs nowhere else; the returned jump address is the first after the relocated bytes, with the Thumb bit |
| Interceptor.Interceptor.Replace | payloads/interceptor/src/lib.rs:185-286 | an even target is refused without change; otherwise memory is exactly the installed hook, the pool gains it with parallel vectors kept in step, hooks that were in force stay so, and exactly the lines of two 64-byte flushes are cleaned |
| Interceptor.Interceptor.Revert | payloads/interceptor/src/lib.rs:289-314 | refuses an even or unknown target without change; otherwise removes the first entry for the target from both vectors, copies the trampoline's start back, cleans the lines of one flush of the bytes copied, and keeps the other hooks in force |
| Interceptor.Interceptor.Original | payloads/interceptor/src/lib.rs:317-324 | acts as a map lookup: a result exists if and only if the target is hooked, and it is that hook's trampoline |
| Interceptor.PoolRemove | payloads/interceptor/src/lib.rs:310-311 | removing index i from both vectors keeps every remaining entry matched to its hook, and hooks apart |
| Revert.RevertedBytes | payloads/interceptor/src/lib.rs:303-308 | `revert` after `replace` writes only the relocated bytes and the one byte after, with the trampoline's bytes |
| Revert.RevertExact | payloads/interceptor/src/lib.rs:303-308 | the relocated bytes are restored if and only if none came from a literal load; the byte after is unchanged too if and only if it already was the spilled byte |
| HookWitness.LiteralIsNotRestored | payloads/interceptor/src/lib.rs:303-308 | a prologue with one literal load that `revert` does not restore |
| HookWitness.NextByteIsNotRestored | payloads/interceptor/src/lib.rs:303-308 | a prologue that is restored, with a byte after it that is overwritten |
| Cache.Maintenance.FlushDcache | payloads/shared/src/lib.rs:16-27 | for every start and size the loop cleans the lines from that of the start up to the rounded-up end, in order; the end may wrap around |
| Cache.Maintenance.FlushCache | payloads/shared/src/lib.rs:7-14 | the same from the rounded-down start |
| Cache.DcacheCoversExactly | payloads/shared/src/lib.rs:16-27 | for a nonempty range each line meeting it is cleaned, ascending, and no other, if and only if the rounded end does not wrap around |
| Cache.CacheLinesFrom | payloads/shared/src/lib.rs:7-14 | exactly ceil(size/64) lines are cleaned, from the line of the start, or none when the sum wraps around |
| Cache.CacheCoversExactly | payloads/shared/src/lib.rs:7-14 | the request is covered if and only if start mod 64 plus size is at most size rounded up to 64 and nothing wraps around |
| Cache.PatchFlush | payloads/interceptor/src/lib.rs:282 | the 64-byte flush at the odd target covers the patch if and only if the patch does not straddle a line, nor lies in the last one |
| Cache.TrampolineFlush | payloads/interceptor/src/lib.rs:262 | the flush of the trampoline's buffer covers the trampoline if and only if that does not straddle a line, nor lies in the last one; it always does in the first 20 bytes of a line |
| Cache.RevertFlush | payloads/interceptor/src/lib.rs:307 | that flush cleans every line of the restored bytes if and only if they straddle none, nor lie in the last one |
| Cache.FlushWitness | payloads/shared/src/lib.rs:7-14 | ten bytes from 62 are not covered by their own flush, nor a patch there by the hook's, nor 48 bytes of trampoline from 20 |
| Params.PayloadParams.FindUnusedRange | crates/da-params/src/lib.rs:112-138 | the two nested loops return first fit and make at most one pass more than there are active ranges |
| Params.FindUnusedIsFirstFit | crates/da-params/src/lib.rs:112-138 | with memory ending below 2^32-1: the result lies in memory, meets no active range, and is the least fitting address among memory start and the multiples of 8; `None`, by either overflow exit too, means that none fits |
| Params.SkipBlocked | crates/da-params/src/lib.rs:119-130 | jumping past a blocking range skips no fitting address |
| Params.SaturationBreaks | crates/da-params/src/lib.rs:118-135 | with memory ending at 2^32-1 a concrete table and size make the search wrong, whatever the memory start |
| Params.FirstFitExact | crates/da-params/src/lib.rs:112-138 | the search is right for every table and every size if and only if memory ends below 2^32-1 |
| Params.PayloadParams.FindFreeRange | crates/da-params/src/lib.rs:85-89 | finds the first unused slot, or that there is none |
| Params.PayloadParams.Blacklist | crates/da-params/src/lib.rs:92-109 | fills that slot, in the table and in the image's memory; a full table fails without change |
| Params.BlacklistFillsPrefix | crates/da-params/src/lib.rs:85-109 | slots fill as a prefix, none is lost or changed, and refusal happens exactly when all are used |
| Params.RecordedIs | crates/da-params/src/lib.rs:92-109 | a blacklist call writes nothing but the table, and the table in memory stays the one the search goes by |
| Params.SlotsInMemory | crates/da-params/src/lib.rs:141-173 | a slot is twelve bytes in memory: start, end, and the mode as 0, 1 or 2 |
| Params.TableIsUnique | crates/da-params/src/lib.rs:141-173 | memory determines the table: two readings of one place agree |
| Relocation.Payload.FixGot | payloads/rpc/src/setup.rs:134-157 | the loop processes every table entry once, in order, each on the memory the previous one left |
| Relocation.FixPrefixRelinks | payloads/rpc/src/setup.rs:134-157 | for relocations of distinct in-image words outside the relocations, exactly the R_ARM_RELATIVE words are moved by the base modulo 2^32 and nothing else changes |
| Relocation.OnlyRelativeMoves | payloads/rpc/src/setup.rs:145-154 | an entry whose type byte is 0x17 moves the word it names by the base, any other leaves memory alone |
| Relocation.TableUntouched | payloads/rpc/src/setup.rs:145-154 | no fix-up changes an entry still to be read |
| Relocation.Payload.App | payloads/rpc/src/setup.rs:180-231 | one entry either copies the image and starts the copy, or fixes itself up, clears bss, and reserves image and stack, in the table and in the image's memory; each way of dying leaves table and memory as told |
| Relocation.AppMemoryIs | payloads/rpc/src/setup.rs:193-231 | beyond the fix-up nothing but the table is written, and it stays in step with what was reserved |
| Relocation.BssIsZero | payloads/rpc/src/setup.rs:203-209 | after the fix-up every byte of bss is zero |
| Placement.RelocationConverges | payloads/rpc/src/setup.rs:193-201 | a copy goes to memory it does not overlap, and the second entry finds the same place and stays; `fix_got` has not run before |
| Placement.RelocatesExactly | payloads/rpc/src/setup.rs:193-202 | with a first fit apart from the load address the payload copies itself there; with one that overlaps it stays and fixes itself up; with none it dies before the fix-up |
| Placement.RunsExactly | payloads/rpc/src/setup.rs:204-231 | a payload that stays gets to `main` if and only if two slots are left and 4 KiB of stack fit; the stack pointer is the stack's top rounded down to eight |
| Placement.Boot | payloads/rpc/src/setup.rs:180-231 | from any load address at most one copy is made and `fix_got` runs at most once, on a pristine image at the final base, unless the payload died before it; that base is the first fit, or the load address where the two overlap |
| Placement.BootKeepsTable | payloads/rpc/src/setup.rs:123-231 | the table travels with the image, and the running image's own table has what was reserved |
| Placement.BootRelinks | payloads/rpc/src/setup.rs:134-157 | after the boot every named word, none of which is in the blacklist, holds its link-time value moved by the final base, wherever the payload was first loaded |
| Placement.BootIsSafe | payloads/rpc/src/setup.rs:193-231 | image, stack and heap are pairwise disjoint and guarded after the boot, stack and heap lie in memory and avoid every range of the table they were given; so does a relocated image |
| Placement.BootWorldIsBoot | payloads/rpc/src/pl.rs:37-46 | that invariant is about what `app` and then `main` do, stack pointer included |
| Placement.EventKeepsSafe | payloads/rpc/src/usb.rs:118-131 | any single message that the payload survives, wanted blacklist request or not, keeps the placement invariant |
| Placement.ReserveKeepsSafe | payloads/rpc/src/usb.rs:119-131 | an accepted blacklist call keeps every block placed, places the outstanding ranges it covers, and keeps outstanding what it does not meet |
| Placement.OnlyRangeIsClaimed | payloads/rpc/src/usb.rs:118-131 | an outstanding range that is covered becomes a block, unless another covered one overlaps it |
| Placement.RemainingExactly | payloads/rpc/src/usb.rs:119-131 | a range stays outstanding after an accepted call if and only if that call does not meet it |
| Placement.PlacementStaysSafe | payloads/rpc/src/usb.rs:60-169 | after any messages image, stack, heap and every range found and then blacklisted are pairwise disjoint, guarded, in memory (image aside) and clear of every range active when they were chosen; no block is ever lost or moved |
| Messages.HistoryIsEvents | payloads/rpc/src/usb.rs:60-169 | the device's table after any completed exchanges is that of the placement model |
| Messages.ToldAndReserved | payloads/rpc/src/usb.rs:118-131 | a range that an answer tells the host is outstanding from then on; blacklisted with an ack, and overlapped by no other outstanding one, it is a block from then on |
| Messages.ResetsAreCounted | payloads/rpc/src/usb.rs:98-101 | the watchdog is written once for every completed reset, and for nothing else |
| Messages.BootedIsReady | payloads/rpc/src/setup.rs:180-231 | where the loader lives outside the memory searched or is blacklisted, `app` and `main` leave a world that is safe and a device whose table, heap and blocks are those of that world, clear of the loader |
| Messages.StartPayload | payloads/rpc/src/pl.rs:37-50 | load, relocation, fix-up, reservations and heap in one run end in a handler whose state is the one the session theorems start from |
| Messages.SessionStaysSafe | payloads/rpc/src/usb.rs:41-170 | in every interleaving, after every completed exchange, the placement invariant holds of the device's own table, which is the one in its image, and the loader's memory is unchanged |
| Messages.MissingWritesAreCareful | payloads/rpc/src/usb.rs:69-74 | a host whose writes miss the payload's image, stack and heap and the loader's memory, and that hooks nothing, breaks nothing |
| OwnMemory.ReplyKeepsIntact | payloads/rpc/src/usb.rs:60-169 | every answered message, hooks included, keeps table and heap in order |
| OwnMemory.HookWrites | payloads/rpc/src/usb.rs:102-113 | a hook puts a live trampoline in the heap and a live patch over its target, and writes nothing else |
| OwnMemory.ReplyKeepsLoader | payloads/rpc/src/usb.rs:60-169 | no message that is answered, hooks included, changes a byte of the memory the loader needs |
| OwnMemory.OwnSurvivesExactly | payloads/rpc/src/usb.rs:69-74 | image, stack, heap and the loader's memory survive a write, whatever the data, if and only if its range misses them |
| OwnMemory.TableSurvivesExactly | payloads/rpc/src/usb.rs:69-74 | the blacklist survives a write, whatever the data, if and only if the range misses the table |
| OwnMemory.ZeroesEmptyTheTable | payloads/rpc/src/usb.rs:69-74 | a write of 144 zeros over the table is a request the payload does not survive: what memory then holds is an empty table |
| Bump.AlignUpIs | payloads/bump/src/lib.rs:89-92 | the result is the least multiple not below, unless that lies past the address space: then it wraps to zero |
| Bump.AllocIs | payloads/bump/src/lib.rs:30-51 | an allocation is the lowest aligned block that fits; it is refused without change exactly when none fits; pointer plus remaining size never moves |
| Bump.AllocRefuses | payloads/bump/src/lib.rs:17 | eight free bytes of which no aligned block fits: the pointer returned is null |
| Bump.RunBlocksApart | payloads/bump/src/lib.rs:30-51 | over any requests the blocks are aligned, ascending without overlap, and inside the initial region |
| Bump.HeapBlocksApart | payloads/rpc/src/pl.rs:39-46 | no heap block meets the image, the stack or a later free range, after any messages |
| Bump.BumpAllocator.Alloc | payloads/bump/src/lib.rs:30-51 | the method on the two cells does that, and refuses when it was not initialised |
| Bump.ReserveHeap | payloads/rpc/src/pl.rs:37-46 | the allocator gets exactly a vacant 1 MiB range; it is blacklisted before any message, or the payload dies with the table unchanged |
| Codec.VarintRoundTrip | crates/da-protocol/src/lib.rs:177 | a postcard varint decodes to its value and leaves what follows, for every value in range and every suffix |
| Codec.MessageRoundTrip | crates/da-protocol/src/lib.rs:97-122 | every message decodes from its encoding followed by any junk, and takes at most 18 of the 24 buffer bytes |
| Codec.ResponseRoundTrip | crates/da-protocol/src/lib.rs:139-146 | the same for responses, at most 7 bytes |
| Codec.AckReadsAsResponse | payloads/rpc/src/usb.rs:52-58 | the host's `Message::Ack` is read by the device as `Response::Ack`, whatever is stale in the buffer |
| Wire.VarintIs | crates/da-protocol/src/lib.rs:169-196 | an integer on the wire is the shortest list of seven-bit groups worth it, least significant first |
| Wire.MessagesOnTheWire | crates/da-protocol/src/lib.rs:96-122 | a message is its position in the declaration and its fields in order, byte by byte |
| Wire.JumpOnTheWire | crates/da-protocol/src/lib.rs:106-111 | an omitted argument is a zero byte, a given one a 1 and its value |
| Wire.ParamsOnTheWire | crates/da-protocol/src/lib.rs:121-122 | both kinds of parameters, byte by byte |
| Wire.ResponsesOnTheWire | crates/da-protocol/src/lib.rs:124-147 | a response is its position and its fields, whatever discriminant the source gives it |
| Wire.FramesOnTheWire | crates/da-protocol/src/lib.rs:169-196 | a frame is its length, most significant byte first, and its bytes; up to 24 are taken and more stop the reader |
| Wire.IntegersExactly | crates/da-protocol/src/lib.rs:169-180 | an integer is read exactly where one is spelled, in up to five bytes, and anything else is refused |
| Wire.OnlyMessagesDecode | crates/da-protocol/src/lib.rs:169-180 | a message starts with the number of its variant; other numbers, of messages, hooks and parameters, are refused |
| Wire.OnlyResponsesDecode | crates/da-protocol/src/lib.rs:169-180 | the same for responses, errors and options |
| DaProtocol.FrameIsTaken | crates/da-protocol/src/lib.rs:169-180 | reading takes exactly one frame off the channel, whatever follows it and whatever the buffer held |
| DaProtocol.MessageIsReceived | crates/da-protocol/src/lib.rs:169-203 | a sent message is read back as itself through a stale buffer; the bytes after it stay |
| DaProtocol.Protocol.ReadFrame | crates/da-protocol/src/lib.rs:169-175 | the buffer's front is overwritten, its tail kept, the frame consumed; an oversized length changes no buffer byte |
| DaProtocol.Protocol.SendResponse | crates/da-protocol/src/lib.rs:185-228 | exactly one frame is appended to the channel; serialisation never fails |
| Device.Handler.Answer | payloads/rpc/src/usb.rs:63-161 | every message but a write, with and without `pl`: new memory, table, hooks, heap, parameters and raw bytes are the specified reaction, error responses and cleaned lines included |
| Device.JumpArguments | payloads/rpc/src/usb.rs:79-97 | arguments left out are zero; the loader's jump gets the address and then the two; without parameters it is refused |
| Device.AnswersMean | payloads/rpc/src/usb.rs:63-161 | what each response, error code by error code, tells the host about its request and the device |
| Device.AnswersChange | payloads/rpc/src/usb.rs:63-161 | an answered message changes only what it asked for: parameters, resets, table, hooks, heap and memory, each by its own message |
| Device.Handler.Hook | payloads/rpc/src/usb.rs:102-113 | hooking is one allocation, one `replace` and what two `push` calls ask of the heap: trampoline, patch, pool, its room and the heap are exactly those |
| Device.FirstHookExactly | payloads/interceptor/src/lib.rs:195-272 | the first hook can be made if and only if 112 bytes of heap are left, code and function meet the interceptor's demands, and the patch misses payload and loader |
| Device.HookTakes | payloads/interceptor/src/lib.rs:195-272 | a hook takes 64 bytes of heap for its trampoline, and the first one 48 more for the pool |
| Device.PoolTakes | payloads/interceptor/src/lib.rs:264-272 | the two `push` calls take 48 bytes of heap at the first hook, nothing while there is room, and 24 for each hook when the pool is full |
| OwnMemory.GrowthKeepsHeap | payloads/interceptor/src/lib.rs:264-272 | the vectors of the pool grow inside the heap: its end never moves, its pointer only upwards |
| Device.Handler.HandleMessage | payloads/rpc/src/usb.rs:60-169 | one turn of the loop consumes one frame, and for a write its raw bytes, and sends raw bytes and one response; an undecodable frame is answered with a nack |
| Device.Handler.Handshake | payloads/rpc/src/usb.rs:46-58 | one ack frame is sent; the device is ready if and only if what comes back reads as an ack, as an honest host's does, and the bytes behind it stay |
| Turns.MachineTurnIsHandlerTurn | payloads/rpc/src/usb.rs:60-169 | fed byte by byte, the device machine takes the same frame and raw bytes, reaches the same state, sends the same bytes and leaves in the same cases as `HandleMessage` |
| Turns.MachineHandshakeIsHandlers | payloads/rpc/src/usb.rs:46-58 | fed byte by byte, the device machine is ready exactly where `Handshake` is, and has halted where it is not |
| Turns.OversizeHalts | crates/da-protocol/src/lib.rs:172-176 | a length beyond the buffer stops the device machine at its fourth byte, in the handshake and after |
| Turns.MachineStartIsHosts | crates/da-boot/src/boot/rpc/ext.rs:16-22 | the host machine takes the same frame as `start`, fails where it does, and otherwise sends its ack and then the first request |
| LockstepSafety.FrameBoundary | crates/da-protocol/src/lib.rs:172-176 | a reader that stops when a frame has arrived stops exactly at its end |
| LockstepSafety.DevPullFrame | payloads/rpc/src/usb.rs:60-72 | the byte that completes a frame makes the device serve exactly the request the host made |
| LockstepSafety.DevPullHandshake | payloads/rpc/src/usb.rs:52-58 | the device accepts the host's ack and keeps the request bytes already sent behind it |
| LockstepSafety.HostPullResponse | crates/da-boot/src/boot/rpc/ext.rs:31-50 | the byte that completes a response completes the exchange; nothing is left on either queue |
| LockstepTheorems.StepKeepsLockstep | payloads/rpc/src/usb.rs:41-170 | whatever either side does next, the account of every byte in flight is kept |
| LockstepTheorems.EveryRunIsSafe | payloads/rpc/src/usb.rs:41-170 | in every interleaving, handshake included, and for every host program that sends the bytes it announces: the completed exchanges are those of an atomic device, the host never sees a broken frame, and the device halts only on a request that breaks it |
| LockstepTheorems.HaltsExactly | payloads/rpc/src/usb.rs:60-169 | where a run has stopped, the device is lost if and only if the request being made breaks it |
| LockstepTheorems.CarefulNeverHalts | payloads/rpc/src/usb.rs:41-170 | under a host program that makes no such request neither side ever fails |
| LockstepTheorems.StuckIsFinished | payloads/rpc/src/usb.rs:41-170 | no reachable state deadlocks: nothing can move if and only if the host is done or the device jumped, with both queues empty, or the request broke the device |
| LockstepProgress.FramesNeverSlip | crates/da-boot/src/boot/rpc/ext.rs:16-69 | what the device has read is part of the frame or of the raw bytes of the very request being made, never one for the other; what the host has read is part of that request's answer |
| LockstepProgress.QueuesEmptyBetween | crates/da-boot/src/boot/rpc/ext.rs:24-69 | between exchanges both queues are empty and the device waits at the start of a frame |
| LockstepProgress.ExchangeTakesItsMoves | payloads/rpc/src/usb.rs:60-169 | in every interleaving an exchange takes exactly two steps for each byte of request and answer; its answer is there at that step and not before |
| HostExt.Start | crates/da-boot/src/boot/rpc/ext.rs:16-22 | exactly an ack is answered with one ack frame, after anything else nothing is sent; the device's is accepted |
| HostExt.UploadPrefix | crates/da-boot/src/boot/rpc/ext.rs:27-33 | after i chunks exactly the covered part of the range holds the data and nothing else has changed |
| HostExt.UploadChunks | crates/da-boot/src/boot/rpc/ext.rs:7-33 | an upload is one write for every 256 KiB, in order, and what remains in the last |
| HostExt.UploadIsOneCopy | crates/da-boot/src/boot/rpc/ext.rs:24-36 | for every range in 32 bits that misses the payload's own memory, upload is one copy of the data |
| HostExt.DownloadIsOneRead | crates/da-boot/src/boot/rpc/ext.rs:38-69 | chunks and remainder fetch exactly the range, without gap or overlap, and the device is unchanged |
| HostExt.DownloadChunks | crates/da-boot/src/boot/rpc/ext.rs:38-69 | a download is one read for every 256 KiB and one for the remainder, if there is one |
| HostExt.DownloadAfterUpload | crates/da-boot/src/boot/rpc/ext.rs:24-69 | download after upload is the identity |
| HostExt.Session.Upload | crates/da-boot/src/boot/rpc/ext.rs:24-36 | the chunk loop makes exactly those requests and leaves the device with the data on the range |
| HostExt.Session.DoDownload | crates/da-boot/src/boot/rpc/ext.rs:40-52 | one chunk lands in its place of the vector, the rest of the vector stays |
| HostExt.Session.Download | crates/da-boot/src/boot/rpc/ext.rs:38-69 | the loop makes exactly those requests, the filled vector is the range, and it never gives up |
| HostExt.ScriptRunsToItsEnd | crates/da-boot/src/boot/rpc/ext.rs:24-69 | byte by byte, in every interleaving, a run of acked requests that can go no further has performed all of them, in order |
| HostExt.SessionRunsOnMachines | crates/da-boot/src/boot/rpc/ext.rs:16-69 | a session led one exchange at a time is one of the byte machines: in every interleaving a host program that asks the same along the same answers stops with those answers and that device |
| HostExt.UploadEndToEnd | crates/da-boot/src/boot/rpc/ext.rs:24-36 | every interleaving of an upload ends with the device memory of one copy and empty queues |
| HostExt.OverwriteLosesDevice | payloads/rpc/src/usb.rs:69-74 | a host that sends exactly what it announces, but over the table, loses the device in every run |
| HostExt.DownloadEndToEnd | crates/da-boot/src/boot/rpc/ext.rs:38-69 | every interleaving of a download ends with the host holding exactly the range |
| Selector.FoundIsApart | crates/da-boot/src/boot/rpc/selector.rs:89-96 | a range the device finds meets nothing placed and blacklisted before it, and nothing of the payload's own |
| Selector.Host.PlaceImage | crates/da-boot/src/boot/rpc/selector.rs:50-60 | upload and blacklist of an image: it is intact and guarded afterwards, and so is all that was placed apart from it; the payload is lost if and only if the range meets its own memory or the loader's, and otherwise the image is refused if and only if the table is full |
| Selector.Host.PlaceFound | crates/da-boot/src/boot/rpc/selector.rs:177-193 | query, upload and blacklist, in either order of the last two, place the data in memory without touching anything held, or refuse, if and only if the table is full or nothing fits |
| Selector.HookLeaves | payloads/rpc/src/usb.rs:102-113 | after the hook every placed image differs from what was uploaded at most under the patch; if the function lies in LK, only LK does |
| Selector.Host.HookLk | crates/da-boot/src/boot/rpc/selector.rs:141-234 | both function pointers are the given functions with the Thumb bit, scratch address and hook are as the source sets them, with or without a boot image; refused exactly when there is no boot image, no place or slot for it, or it is at address zero; lost exactly when the hook is impossible |
| Selector.Host.RunRpcPreloader | crates/da-boot/src/boot/rpc/selector.rs:41-248 | the session ends in the jump if and only if the user's ranges miss payload and loader, the plan fits (jump pointer, slots, free ranges, LK's parameters) and, for LK, the hook is possible; it fails, or the payload is lost, exactly as told otherwise. Then control leaves with the right target and arguments, LK is intact but for the patch of its live hook, which is the hook of LK as uploaded, boot argument and boot image are intact, so are the images if the user's ranges are apart |
| Plans.SessionExactly | crates/da-boot/src/boot/rpc/selector.rs:41-248 | the course of the session goes to its end, is refused or loses the payload exactly under those conditions on plan and device |
| Plans.AllExactly | crates/da-boot/src/boot/rpc/selector.rs:50-60 | a list of images is placed if and only if all miss payload and loader and there are slots for all; the payload is lost if and only if one that does not comes up while there are slots; the table then has one slot per image, in order |
| Plans.FreeExactly | crates/da-boot/src/boot/rpc/selector.rs:89-105 | a free range is found and taken, at first fit, if and only if one fits and a slot is left |
| Selector.BootedCanStart | payloads/rpc/src/setup.rs:180-231 | the boot leaves everything the session starts from: table in order, payload guarded, loader out of reach of the search |
| Selector.BootRunsOnMachines | crates/da-boot/src/boot/rpc/selector.rs:41-248 | byte by byte, in every interleaving, a host that asks what the session asked reaches the same jump with the device handed over as told |
| Selector.HookedLkReachesReplacement | crates/da-boot/src/boot/rpc/selector.rs:222-234 | entering the hooked function, at the even address of its Thumb pointer, in the memory handed over reaches the payload's replacement with the state unchanged |
| Selector.HookedLkOriginalIsUploaded | payloads/rpc/src/hooks.rs:12-47 | in the memory handed over, calling the original as the replacement does behaves, for any number of steps, as the function in LK as uploaded, as long as code after its prologue does not read the patch |
| Roles.KindOf | crates/da-boot-macros/src/structs.rs:51-62 | a struct is accepted if and only if it is a command or naked and not both; a command keeps its byte and its echo |
| Roles.RoleIsExact | crates/da-boot-macros/src/structs.rs:118-165 | a record is accepted if and only if it names one direction and nothing that clashes; other attributes make no difference |
| Roles.RejectionMeans | crates/da-boot-macros/src/structs.rs:118-160 | each rejection says which attributes clash |
| Roles.WrittenRoleIsRead | crates/da-boot-macros/src/structs.rs:135-164 | every role can be written as attributes and is read back as itself |
| Derive.GenerateField | crates/da-boot-macros/src/protocol.rs:316-372 | the builder calls emit the field's program, or panic, as the compilation function says |
| Derive.Generate | crates/da-boot-macros/src/protocol.rs:314-386 | command code, then every field's code, in declaration order; a panic anywhere is a panic |
| DeriveTheorems.FieldIsCompiled | crates/da-boot-macros/src/protocol.rs:316-372 | the code of a field that is no misused reference, run from any leftover `tmp`, does what its role says, failures included |
| DeriveTheorems.CompilerIsCorrect | crates/da-boot-macros/src/protocol.rs:314-386 | for every well-typed struct whose references ask to be sent, and every inbound byte stream, the emitted program sends, consumes, stores and succeeds or fails exactly as the roles performed directly |
| DeriveTheorems.EmittedMeans | crates/da-boot-macros/src/protocol.rs:314-386 | for every well-typed struct, the emitted program does what the roles say of the struct with its references sent |
| DeriveTheorems.RolesAreFollowedExactly | crates/da-boot-macros/src/protocol.rs:363-370 | an emitted program that runs through follows the roles if and only if every reference asks to be sent |
| DeriveTheorems.ReceivedSliceIsSent | crates/da-boot-macros/src/protocol.rs:363-370 | a slice that asks to be received compiles, and its bytes are sent |
| DeriveTheorems.CompilesExactly | crates/da-boot-macros/src/protocol.rs:314-372 | given the roles, the generator panics if and only if some field is not of an encodable kind |
| DeriveTheorems.ExpandsExactly | crates/da-boot-macros/src/protocol.rs:188-386 | from the attributes on: the macro accepts a struct if and only if it is a command or naked and not both, and each field names one direction, nothing that clashes, and a type that can go that way |
| DeriveDialogue.FieldDialogue | crates/da-boot-macros/src/protocol.rs:316-372 | a field succeeds if and only if its declared bytes came in and went out and its value is an allowed one |
| DeriveDialogue.BigEndian | crates/da-boot-macros/src/protocol.rs:77-173 | the bytes of a number are as many as its width and worth it with the most significant first |
| DeriveDialogue.EmittedProgramSpeaks | crates/da-boot-macros/src/protocol.rs:375-401 | the emitted program succeeds if and only if the command and the sending fields' final values went out, big-endian in declaration order, the echo and the receiving fields' values came in, and nothing else changed; references count as sending |
| DeriveDialogue.FailureSendsPrefix | crates/da-boot-macros/src/protocol.rs:394-400 | when it fails, wherever that is, what was sent is a front part of that dialogue |
| DeriveDialogue.FieldsFailHow | crates/da-boot-macros/src/protocol.rs:104-173 | a failure is that of one field after all earlier ones succeeded; with references sent, it is a panic if and only if that field is an oversized `always` |
| DeriveDialogue.FieldReports | crates/da-boot-macros/src/protocol.rs:83-115 | a status or echo error names what was wanted and what came in, which are different and are the bytes consumed |
| DeriveDialogue.RoomIsConserved | crates/da-boot-macros/src/protocol.rs:316-372 | failed or not, what was sent and what the port would still take add up to what it took before |
| DeriveDialogue.JumpDaSpeaks | crates/da-boot/src/commands/preloader.rs:36-44 | the `JumpDA` command from its attributes: for every address and all that may come in, `run` succeeds if and only if command, address and a zero status come in, and has then sent command and address |

## Left out

- Hooking one target twice, a failed allocation inside `replace` and use before `Interceptor::init` are excluded by preconditions, as are prologues with branches or PC-relative instructions other than literal loads, literal loads of pc, `setend be`, literal loads in IT blocks, and branches into the prologue's middle.
- HookTheorems.TrampolineExact: among prologues with a literal load in an IT block, some are preserved by chance (the instructions that lose their condition do nothing); that family is excluded as a whole, not characterised.
- Thumb: a function is entered outside an IT block and in little-endian state, as the ARM procedure call standard has it. Code memory is read-only while the machine runs; data memory and flags are the opaque rest of the state, so code that patches itself is not modelled.
- Interceptor.Interceptor.Replace: does not model a wrap-around of addresses at the ends of the 32-bit space; literals, target and trampoline must lie within it.
- Interceptor.Interceptor.WriteTrampoline: the source's leading nop for an unaligned block is a dead branch, because the allocator's block is word-aligned.
- The instruction cache, branch predictor and barriers of `flush_icache`: only the data lines cleaned are modelled. `naked` thunks and the invocation context are not.
- Bump.AlignUpIs: the mask of a variable alignment is modelled as the remainder it stands for; the fixed masks are modelled bit by bit.
- Device.Handler.HandleMessage: waits are not modelled; it is stated for inputs that have arrived, and the byte-level machines of `Lockstep` cover partial arrival. Requests that break the payload are excluded by its precondition, since nothing can be said after them; the byte-level machines halt there.
- Device.Handler.Answer: requests that break the payload are excluded by its precondition. `Reset` records the watchdog write, and the function called by `Jump` does not return. Of the payload's own memory only the blacklist and the trampolines are kept in the model's memory: its other statics, its stack, and the storage of the pool's vectors (whose place is modelled, with the growth of Rust's `Vec`: four elements, then doubling) change on the device without the model, so what a `Read` of such bytes returns is not claimed to be what the host would see.
- HostExt.Session.Exchange: one exchange is one step here; the byte-level theorems are what justify it.
- HostExt.Session.Upload: addresses that overflow 32 bits, and ranges that meet the payload's own memory, are excluded by a precondition.
- HostExt.Session.Download: addresses that overflow 32 bits are excluded by a precondition.
- LockstepTheorems.HaltsExactly: the loader's memory is a list of ranges that the model takes as given; it is for the caller to name all that the transfer routines run from and use. What those routines do with their own data is not modelled, nor are writes to device registers outside these ranges.
- LockstepTheorems.EveryRunIsSafe: hosts that announce a length and send another are outside the protocol; what a device does after a request that breaks it is not modelled; channel errors and timeouts of the transport are not modelled.
- Placement.PlacementStaysSafe: addresses the user chose for uploads are not checked by the code, so disjointness is claimed for ranges the device found; a payload that stays put because it overlaps its chosen place is only blacklisted there.
- Relocation.Payload.App: verification of the parameters, the jump to ARM code and the bootstrap stack inside the image are not modelled; an image is not empty and does not reach the end of the address space.
- Selector.Host.RunRpcPreloader: image analysis, temporary files and `mkbootimg` supply parameters; the boot argument and boot image are not empty; ranges one byte longer than the data, as the host blacklists them, must be of 32-bit addresses; loading the payload before `start_rpc` and the interactive mode are not modelled. Whether LK can be hooked is a condition on the device the session has prepared; for a first hook it is spelled out in `Device.FirstHookExactly`.
- Derive.Generate: token parsing is left out, the model starts from attribute records and types; generated constructors and getters are not modelled; a `Vec` field can only be received, since the emitted load of a `Vec` does not type-check in Rust.
- Serial port discovery, timing, progress bars, command line, UART output, boot argument tables (`lk_arg`), SoC tables (`acon`), image patching (`da-patcher`) and `search_pattern`: input, output, constants, or a single easy search. The external `simpleport` and `postcard` crates are not part of this model beyond the wire format they define.
