# uJ core, modelled in Dafny

uJ is a small Java virtual machine for microcontrollers. It loads classes either from
standard class files or from its own compact format (UJC). For each loaded class it
interprets the bytecode thread by thread, in fixed time slices. It collects garbage by
marking from the roots.

Next to the VM sit two other pieces:

- **classCvt**, an offline converter. It rewrites a class file into the compact form. On the
  way it specialises accesses to the class's own fields and methods, drops unused constants
  and reorders the constant pool.
- **A loader for the RIOT port.** It reads a packed image of compact classes and loads them
  in dependency order.

This project models the core of those three sources and proves properties of that model:

- **The interpreter's data structures:**
  - a thread's stack and its bitmap of reference tags;
  - the packed return information of a call, and the return that undoes it;
  - re-entrant monitors;
  - the class list with class search and the placement of each class's data;
  - string comparison and hashing over the several kinds of string parameter;
  - the walks through a class file's constant pool and field tables.
- **Interpreter opcodes:**
  - conditional jumps, `tableswitch` and `lookupswitch`;
  - the bounds check and the array load and store opcodes;
  - `lcmp`, `monitorenter` and `monitorexit`;
  - `instanceof`;
  - exception dispatch;
  - counting a method's parameter slots.
- **Whole-VM operations:** the time-slice scheduler with thread destruction, and the mark
  phase of the collector.
- **The converter's `classOptimize`:**
  - field layout;
  - the three per-instruction passes;
  - the marking of used constants;
  - the new pool order with its forward and reverse maps;
  - the renumbering of every index the class holds;
  - the final move of the constants.
- **The RIOT loader:** `loadPackedUjcClasses` with its repeated passes.

Where the C updates things in place, the model is imperative:

- a thread is a `class` whose stack and tag bitmap are `array`s;
- a monitor, the class list, the thread ring and the heap arena are classes;
- the converter's parsed class is a class over arrays;
- each loop of the C is a `while` loop with its invariants.

Each such method is proved against a specification function on values, for example
`PushSpec`, `DupSpec`, `RetSpec`, `LoadSpec`, `InstanceOfSpec`, `LaidOut` or `NewIndex`. The
lemmas about those functions state what the source promises:

- round trips: push then pop, call then return, encode then decode, a renumbering undone by
  the reverse map;
- exactness: the search finds the newest class of a name; `instanceof` on a class chain
  and, for an acyclic interface graph, on interfaces; the marked set equals the reachable set;
- frame conditions: nothing else changes.

The model is written against the C as it stands. Where the C does something other than its
evident intent, the model keeps the code's behaviour, and `## Findings` gives the input that
shows the difference together with the corrected definition.

Fixed sizes are modelled explicitly:

- addresses are 32-bit and wrap;
- counters declared `uint16_t` or `uint8_t` wrap at their width;
- the 16-bit readers that return `int16_t` are read as signed.

## Model

| member | source | states |
|---|---|---|
| Bytes.ReadU16 | uJ/uj.c:297-306 | a big-endian 16-bit read is below 2^16 |
| Bytes.ReadU24 | uJ/uj.c:286-295 | a big-endian 24-bit read is below 2^24 |
| Bytes.S16 | uJ/uj.c:297-306 | the `int16_t` reading of a 16-bit value is in range and differs from it by 0 or 2^16 |
| Bytes.S32 | uJ/uj.c:275-284 | the `int32_t` reading of a word is in range and differs from it by 0 or 2^32 |
| Bytes.U32 | uJ/uj.c:3968-3984 | a signed 32-bit value is stored as the word that represents it |
| Bytes.EncodeU16 | uJ/uj.c:297-306 | the two-byte big-endian form of a 16-bit value |
| Bytes.EncodeU24 | uJ/uj.c:286-295 | the three-byte big-endian form of a 24-bit value |
| Bytes.EncodeU32 | uJ/uj.c:275-284 | the four-byte big-endian form of a word |
| Bytes.ReadU16Encode | uJ/uj.c:297-306 | reading two encoded bytes gives the value back (round trip) |
| Bytes.ReadU24Encode | uJ/uj.c:286-295 | reading three encoded bytes gives the value back (round trip) |
| Bytes.ReadU32Encode | uJ/uj.c:275-284 | reading four encoded bytes gives the word back (round trip) |
| Bytes.HostBytes | uJ/uj.c:1141-1149 | the four host-order bytes a word is stored as |
| Bytes.HostWordBytes | uJ/uj.c:1170-1181 | reading four host-order bytes back gives the stored word |
| Bytes.Splice | uJ/uj.c:1141-1157 | an in-place store keeps the length and changes only the bytes it overwrites |
| Errors.AsCBool | uJ/uj.c:345-352 | a code returned through a `bool` function becomes 0 or 1, non-zero exactly when the code is |
| Strings.Process | uJ/uj.c:447-493 | resolving a string parameter ends at a pointer or an address, and a resolved parameter is left as it is |
| Strings.Length | uJ/uj.c:440-445 | a string's length is a 16-bit value: the C length of a pointer, the stored length of an address |
| Strings.Text | uJ/uj.c:433-438 | the characters of a resolved string, one per position of its length |
| Strings.StrEqual | uJ/uj.c:513-545 | the comparison answers true exactly when both parameters resolve and have equal lengths and equal characters at every position |
| Strings.Hash | uJ/uj.c:496-510 | the loop computes the one-byte hash of the resolved string, none when it does not resolve |
| Strings.HashRespectsEquality | uJ/uj.c:496-545 | equal strings have equal hashes |
| Strings.SameStringEquivalence | uJ/uj.c:513-545 | string equality is symmetric and transitive |
| Strings.ProcessKeepsString | uJ/uj.c:447-493 | a parameter and what it resolves to denote the same string |
| Strings.PtrAgainstStored | uJ/uj.c:513-545 | a C string equals a stored string exactly when the lengths and all characters agree |
| ClassFiles.ReadI16 | uJ/uj.c:297-306 | the signed 16-bit reader lies in [-2^15, 2^15) |
| ClassFiles.Addr | uJ/uj.c:286-295 | an address sum wraps into a 32-bit word |
| ClassFiles.AddrAdd | uJ/uj.c:356-396 | wrapping an intermediate address does not change the final one |
| ClassFiles.AddrAfterTag | uJ/uj.c:356-396 | stepping past a tag byte and then a body is one wrapped step |
| ClassFiles.EntrySize | uJ/uj.c:361-392 | the tag switch gives the body size of the constant at an address; every non-string size is at most 8 |
| ClassFiles.FindConstClass | uJ/uj.c:356-396 | the lookup walk returns the address the constant walk specifies, or none where the C counter wraps |
| ClassFiles.SkipConstants | uJ/uj.c:728-762 | the loader's skip ends where the pool walk specifies |
| ClassFiles.StoredHead | uJ/uj.c:356-396 | a stored pool is its first tag, its body and the rest of the pool |
| ClassFiles.Utf8Length | uJ/uj.c:364-367 | the signed length at the head of a UTF-8 body is its byte count |
| ClassFiles.WalkStored | uJ/uj.c:356-396 | walking the slot counts of the first k constants lands on constant k's tag, for either walker |
| ClassFiles.PoolLayout | uJ/uj.c:356-396 | on a well-formed pool, looking up constant k finds where it is stored, and the loader's skip ends just past the pool |
| ClassFiles.SkipAttributesLoop | uJ/uj.c:786-789 | skipping n attributes steps over each length-prefixed attribute in order |
| ClassFiles.ReadField | uJ/uj.c:698-714 | one field record gives its static flag, its type character and the address of the next record |
| ClassFiles.SumFields | uJ/uj.c:695-715 | the field loop sums the static sizes and the instance sizes separately, each in 16 bits, and ends past the last field |
| FieldLayout.TypeToSize | uJ/uj.c:631-653 | the size of a type character: 1 for byte or boolean, 2 for char or short, 8 for long or double, 4 otherwise |
| FieldLayout.GroupTotalMonotone | classCvt/classOptimizer.c:361-400 | a group's running total never shrinks as fields are added |
| FieldLayout.FieldWithinGroup | classCvt/classOptimizer.c:361-400 | each field lies wholly inside its group's area |
| FieldLayout.FieldsDisjoint | classCvt/classOptimizer.c:361-400 | two fields of one group never overlap |
| FieldLayout.OtherGroupDoesNotMove | classCvt/classOptimizer.c:361-400 | fields of the other group do not move a field's offset |
| Registry.NameParam | uJ/uj.c:548-590 | the string parameter the search uses for each kind of class: a native name, a compact constant, a standard class constant |
| Registry.NewestMeaning | uJ/uj.c:548-590 | the newest-first scan finds a set position with none above it, and fails only when none is set |
| Registry.FindFromMeaning | uJ/uj.c:548-590 | the search returns an accepted class with no accepted class loaded after it, and fails only when none is accepted |
| Registry.HashedSearchAgrees | uJ/uj.c:548-590 | with consistent stored hashes, the search that skips mismatched hashes finds exactly what the plain search finds |
| Registry.ChainLayout | uJ/uj.c:845-857 | while the chain fits in 16 bits, a class's instance data ends where its chain's total ends, and every ancestor's lies below it |
| Registry.HeaderUjc | uJ/uj.c:672-720 | the compact header names the superclass by constant index and carries the interfaces, fields and hash at fixed offsets |
| Registry.StdHash | uJ/uj.c:799-810 | the stored hash of a standard class is the hash of its name, or 0 when hashing is off |
| Registry.HeaderStd | uJ/uj.c:721-819 | the standard header: pool skipped, interfaces and fields located, superclass resolved through its class constant |
| Registry.HeaderOf | uJ/uj.c:672-821 | bytes that have neither magic give no header; otherwise the header's format follows the magic |
| Registry.ParseHeader | uJ/uj.c:672-821 | the header parse computes `HeaderOf` |
| Registry.ParseUjc | uJ/uj.c:672-720 | the compact parse computes `HeaderUjc` |
| Registry.ParseStd | uJ/uj.c:721-819 | the standard parse computes `HeaderStd` |
| Registry.ParseStdSuper | uJ/uj.c:793-797 | the superclass index leads to the name index of its class constant |
| Registry.ParseStdHash | uJ/uj.c:799-810 | the name hash is taken over the class's own name string |
| Registry.ParseStdLayout | uJ/uj.c:764-791 | the interfaces and the field table are located and the field sizes summed |
| Registry.ClassTable.constructor | uJ/uj.c:255 | the class list starts empty |
| Registry.ClassTable.FindClass | uJ/uj.c:548-590 | the search over the list returns what `FindClassSpec` specifies: the newest class with the wanted name |
| Registry.ClassTable.ClassFromRef | uJ/uj.c:2393-2413 | a class constant is resolved by searching for the name it leads to |
| Registry.ClassTable.LoadClass | uJ/uj.c:655-873 | loading computes `LoadSpec`, and a class is appended exactly on success |
| Registry.ClassTable.RegisterNativeClass | uJ/uj.c:592-629 | registering computes `RegisterSpec`, and a class is appended exactly on success |
| Registry.RefParam | uJ/uj.c:2393-2413 | a compact class names the string directly; a standard class names a class constant |
| Registry.LoadFailureChangesNothing | uJ/uj.c:827-838 | a failed load leaves the list unchanged; the dependency is missing exactly when a named superclass is not found |
| Registry.LoadSuccess | uJ/uj.c:840-870 | a successful load appends one class, linked to the superclass its header names, with its data placed right after the superclass's |
| Registry.LoadKeepsChain | uJ/uj.c:845-851 | loading keeps every class's data right after its superclass's |
| Registry.RegisterKeepsChain | uJ/uj.c:592-629 | registering keeps that chain property, for sizes that fit 16 bits |
| Registry.StdNameResolves | uJ/uj.c:573-579 | a standard class's name parameter resolves to the name the loader read |
| Registry.StdHashIsNameHash | uJ/uj.c:799-810 | with hashing on, a standard header's hash is the hash of the class's name parameter |
| Registry.RegisteredHashConsistent | uJ/uj.c:603-607 | a registered native class carries the hash of its own name |
| Registry.LoadedHashConsistent | uJ/uj.c:859-861 | a loaded standard class carries the hash of its own name |
| Registry.NewestFoundFirst | uJ/uj.c:548-590 | once a class is loaded, searching for its name finds it, shadowing older classes of that name |
| Monitors.Monitor.constructor | uJ/uj.c:104-108 | a fresh monitor has no holder and no holds |
| Monitors.Monitor.Enter | uJ/uj.c:336-343 | enter computes `EnterSpec` and keeps the monitor well formed |
| Monitors.Monitor.Exit | uJ/uj.c:345-352 | exit computes `ExitSpec`, returned through the declared `bool` |
| Monitors.EnterIff | uJ/uj.c:336-343 | enter succeeds exactly when the monitor is free or held by the caller, and then one more hold is counted; a refused enter changes nothing |
| Monitors.ExitIff | uJ/uj.c:345-352 | exit by a non-holder, or of a free monitor, gives the monitor-state error and changes nothing; otherwise one hold is released |
| Monitors.EnterTimesHolds | uJ/uj.c:336-343 | k more enters by the holder succeed and leave n + k holds, while the counter does not wrap |
| Monitors.ExitTimesFrees | uJ/uj.c:345-352 | n exits free a monitor held n times, and one fewer leaves it held |
| Monitors.Reentrancy | uJ/uj.c:336-352 | a thread that enters a free monitor k times must exit it k times before another thread's enter is accepted |
| Threads.TagView | uJ/uj.c:1196-1227 | the tag bits of the first n slots, read as booleans |
| Threads.SameBit | uJ/uj.c:1196-1227 | two slots share a byte and a bit position only when they are the same slot |
| Threads.SetBitView | uJ/uj.c:1196-1205 | setting slot p's bit sets that slot's tag and no other |
| Threads.ClearBitView | uJ/uj.c:1207-1216 | clearing slot p's bit clears that slot's tag and no other |
| Threads.Moved | uJ/uj.c:1267-1350 | the dup primitive moves `(uint8_t)(howMany + howFarBelow)` slots |
| Threads.PushProperties | uJ/uj.c:1229-1242 | a push succeeds exactly when the stack has room; a refused push changes nothing; a successful one puts the value on top, tagged as a reference or not, and keeps every slot below |
| Threads.PushPopRoundTrip | uJ/uj.c:1229-1258 | push then pop gives the pushed value, the old stack pointer and the old tags |
| Threads.PopKeepsClean | uJ/uj.c:1249-1258 | pop clears the tag it vacates and changes no other slot |
| Threads.DupTop | uJ/uj.c:1267-1350 | `dup` makes the top two slots the old top, with its tag |
| Threads.SwapExchanges | uJ/uj.c:1267-1350 | `swap` as the C builds it (a dup of one slot over one, then a pop) exchanges the top two slots and their tags |
| Threads.OverTop | uJ/uj.c:1267-1350 | `dup_x1` puts the old top under the second slot and on top again |
| Threads.DupKeepsClean | uJ/uj.c:1267-1350 | a copying dup leaves no stale tag above the stack pointer |
| Threads.PushRetInfoSpec | uJ/uj.c:1620-1658 | pushing the return information keeps the stack well formed and its size; a push that does not fit gives the stack-space error |
| Threads.PopTo | uJ/uj.c:1671-1674 | the first loop of the return pops down to the locals base |
| Threads.ClearedIsPopTo | uJ/uj.c:1671-1674 | popping to the locals base clears exactly the vacated tags |
| Threads.RetSpec | uJ/uj.c:1660-1720 | the return keeps the stack well formed and its size |
| Threads.PopRetInfo | uJ/uj.c:1697-1714 | popping C, B and the instance or class word rebuilds the registers |
| Threads.Int8 | uJ/uj.c:2354-2364 | the slot count minus three, as the `int8_t` it is passed as |
| Threads.InvokeFrameLayout | uJ/uj.c:2354-2364 | a call shifts the argument slots up by three without copying and leaves a three-slot gap for the return information |
| Threads.ShiftForCall | uJ/uj.c:2354-2364 | the arguments keep their tags three slots higher, the gap is untagged, and everything below is untouched |
| Threads.MovedForCall | uJ/uj.c:2354-2364 | the slot count passed through `int8_t` comes back as the number of moved slots |
| Threads.UnpackPacked | uJ/uj.c:1620-1720 | unpacking B and C gives back the packed fields |
| Threads.PushedWords | uJ/uj.c:1620-1658 | the three words of the return information land at the three slots above the old stack pointer |
| Threads.CallReturnRoundTrip | uJ/uj.c:1620-1720 | call then return: whatever the callee leaves at and above its locals, the return restores the caller's stack pointer and registers and untags the callee's slots |
| Threads.RetTail | uJ/uj.c:1660-1720 | a return whose monitor release succeeds is the pop of the return information from the popped stack |
| Threads.PopRetInfoOf | uJ/uj.c:1697-1714 | the three return words are popped, their tags cleared, and the registers rebuilt from them |
| Threads.RetFromTopLevel | uJ/uj.c:1671-1680 | returning from the outermost frame sets the pc to "done" and unpacks nothing |
| Threads.RetMonitorFailure | uJ/uj.c:1682-1694 | a synchronized return whose monitor the thread does not hold gives 1 and changes neither the registers nor the monitor |
| Threads.ShiftByLoop | uJ/uj.c:1306-1322 | the first dup loop alone gives the outcome `DupSpec` describes for a non-copying dup |
| Threads.CopyByLoops | uJ/uj.c:1267-1350 | the two dup loops give the outcome `DupSpec` describes for a copying dup |
| Threads.DupByLoops | uJ/uj.c:1267-1350 | the two loops of the dup primitive give the outcome `DupSpec` describes |
| Threads.Thread.constructor | uJ/uj.c:875-901 | a new thread has an empty, untagged stack of `stackSz / 4` slots, or of 256 / 4 = 64 slots when `stackSz` is 0 (`UJ_DEFAULT_STACK_SIZE`), and an invalid pc |
| Threads.Thread.BitSet | uJ/uj.c:1196-1205 | slot p becomes tagged; no other tag changes |
| Threads.Thread.BitClear | uJ/uj.c:1207-1216 | slot p becomes untagged; no other tag changes |
| Threads.Thread.BitGet | uJ/uj.c:1218-1227 | the answer is slot p's tag |
| Threads.Thread.Push | uJ/uj.c:1229-1242 | the push computes `PushSpec` and keeps the registers |
| Threads.Thread.Pop | uJ/uj.c:1249-1258 | the pop computes `PopSpec` and keeps the registers |
| Threads.Thread.Peek | uJ/uj.c:1352-1359 | the value k slots below the top |
| Threads.Thread.MoveUp | uJ/uj.c:1309-1322 | step 1 of dup moves the top m slots up by n, each with its tag |
| Threads.Thread.CopyInto | uJ/uj.c:1326-1340 | step 2 of dup copies n slots into the gap below the moved ones |
| Threads.Thread.Dup | uJ/uj.c:1267-1350 | the dup primitive computes `DupSpec` |
| Threads.Thread.LocalLoad | uJ/uj.c:1366-1373 | the value of local idx |
| Threads.Thread.LocalStore | uJ/uj.c:1375-1384 | local idx gets the value, tagged exactly when it is a reference; nothing else changes |
| Threads.Thread.PushRetInfo | uJ/uj.c:1620-1658 | the three pushes compute `PushRetInfoSpec` |
| Threads.Thread.PopToLocals | uJ/uj.c:1671-1674 | the first loop of the return computes `PopTo` |
| Threads.Thread.UnpackRetInfo | uJ/uj.c:1697-1714 | the second half of the return computes `PopRetInfo` |
| Threads.Thread.Ret | uJ/uj.c:1660-1720 | the return computes `RetSpec` on the stack, the registers and the released monitor |
| Branches.JumpFromOpcode | uJ/uj.c:1722-1734 | a taken branch lands at the opcode plus the signed offset, an untaken one three bytes on |
| Branches.JumpIfNeeded | uJ/uj.c:1722-1734 | the pc becomes the branch target or moves past the operand; no other register changes |
| Branches.AcmpneAsWrittenFallsThrough | uJ/uj.c:3935-3943 | as written, `if_acmpne` and `if_acmpeq` take the same branch, so `if_acmpne` on different references falls through |
| Branches.AcmpComplements | uJ/uj.c:3935-3943 | the intended `if_acmpne` branches exactly when the references differ, the complement of `if_acmpeq`, which is unchanged |
| Branches.IfAcmp | uJ/uj.c:3935-3943 | pop two references and jump as the code is written |
| Branches.Pad | uJ/uj.c:3963-3965 | the padding is below 4 and aligns the operand to the method start |
| Branches.TableHeader | uJ/uj.c:3961-3987 | the header words of a laid-out table read back as the default offset, low and high |
| Branches.TableSwitchSelects | uJ/uj.c:3961-3987 | with the corrected word offset, a key in range jumps by its own offset and any other key by the default, measured from the opcode |
| Branches.TableSwitchAsWrittenIsOneEarly | uJ/uj.c:3974-3984 | as written, the smallest key jumps by the value of `high` and every other key by the offset of the key before it |
| Branches.SwitchPad | uJ/uj.c:3963-3965 | the padding computation gives `Pad` |
| Branches.TableIndex | uJ/uj.c:3970-3981 | the range check gives the byte offset of the jump word, as written |
| Branches.SwitchJump | uJ/uj.c:3984-3986 | the pc moves by the signed word read, relative to the opcode; nothing else changes |
| Branches.TableSwitch | uJ/uj.c:3961-3987 | pop the key and jump as the code is written |
| Branches.PairCount | uJ/uj.c:3999-4002 | the pair count keeps only its low 29 bits after the shift by three |
| Branches.PairSearch | uJ/uj.c:4003-4007 | the search loop finds the first pair whose key word matches, or reports none |
| Branches.LookupSwitch | uJ/uj.c:3989-4018 | pop the key, search the pairs in order, and jump by the matching pair's offset or the default |
| Branches.LookupSwitchSelects | uJ/uj.c:3989-4018 | a laid-out `lookupswitch` jumps by the offset of the first pair with the popped key, and by the default when no pair has it |
| Branches.LookupWordSelects | uJ/uj.c:4003-4012 | the search over a laid-out operand settles on the first pair with the key |
| Branches.LookupCount | uJ/uj.c:3999-4002 | the count word of an operand that fits in memory survives the shift |
| Arrays.JArray.constructor | uJ/uj.c:1808-1820 | a new array has `len` elements, all bytes clear |
| Arrays.Width | uJ/uj.c:1488-1518 | an element is 1, 2 or 4 bytes wide, after the opcode that touches it |
| Arrays.BoundsCheckIff | uJ/uj.c:1610-1618 | the check passes exactly for a non-null array and an index inside it; null is reported before the index is looked at |
| Arrays.StoreThenLoad | uJ/uj.c:1488-1589 | loading an element just stored gives the stored word narrowed to the element type |
| Arrays.StoreKeepsOthers | uJ/uj.c:1571-1589 | a store leaves every other element unchanged |
| Arrays.LongStoreThenLoad | uJ/uj.c:1551-1601 | loading a `long` element just stored gives back both halves |
| Arrays.LongStoreKeepsOthers | uJ/uj.c:1592-1601 | a `long` store leaves every other element unchanged |
| Arrays.Put32 | uJ/uj.c:1141-1149 | the four bytes at the offset become the host bytes of the word |
| Arrays.Put16 | uJ/uj.c:1151-1157 | the two bytes at the offset become the host bytes of the half-word |
| Arrays.SetElem | uJ/uj.c:1571-1589 | an element store writes the low bytes of the value at `width * index` |
| Arrays.SetLong | uJ/uj.c:1592-1601 | a `long` store writes the high word, then the low word |
| Arrays.ArrayStore | uJ/uj.c:3165-3236 | pop value, index and array; the result is the bounds check, and only a passing check writes the element |
| Arrays.ArrayLoad | uJ/uj.c:3024-3090 | pop index and array; when the check passes push the element, tagged for `aaload` |
| Arrays.LongStore | uJ/uj.c:3177-3191 | `lastore`/`dastore` write both words only when the check passes |
| Arrays.LongLoad | uJ/uj.c:3035-3048 | `laload`/`daload` push the high word, then the low word, when the check passes |
| Opcodes.S64 | uJ/uj.c:3798-3814 | the signed reading of a 64-bit pattern |
| Opcodes.PopLongSpec | uJ/uj.c:1449-1460 | popping a `long` takes the low word off first, then the high word |
| Opcodes.PopLong | uJ/uj.c:1449-1460 | the two pops compute `PopLongSpec` |
| Opcodes.LcmpFixedOrder | uJ/uj.c:3798-3814 | the reference comparison is a three-way order |
| Opcodes.LcmpAgrees | uJ/uj.c:3798-3814 | whenever the true difference fits in 64 signed bits, the code's answer is the reference answer |
| Opcodes.LcmpOverflow | uJ/uj.c:3801-3809 | value1 = -2^63 against value2 = 1 compares as greater |
| Opcodes.Lcmp | uJ/uj.c:3798-3814 | pop value2, then value1, and push the code's comparison result |
| Opcodes.EnterHeader | uJ/uj.c:4213-4219 | the enter helper acts on object h's header alone |
| Opcodes.ExitHeader | uJ/uj.c:4231-4234 | the exit helper acts on object h's header alone and returns the `bool`-converted code |
| Opcodes.Requeue | uJ/uj.c:4215-4218 | a refused enter pushes the reference back and steps the pc back onto the opcode |
| Opcodes.MonitorEnter | uJ/uj.c:4206-4222 | null gives the null-pointer error; a refused enter leaves the thread ready to retry the opcode; an accepted one updates only that object's monitor |
| Opcodes.RetryRestores | uJ/uj.c:4206-4222 | a refused `monitorenter` leaves the stack exactly as it was before the opcode |
| Opcodes.MonitorExitAsWritten | uJ/uj.c:4224-4238 | as written, a non-null `monitorexit` reports success whatever the exit helper returned |
| Opcodes.MonitorExit | uJ/uj.c:4224-4238 | with the helper's code passed through, releasing a monitor the thread does not hold gives the monitor-state error |
| Opcodes.ExitResultFixed | uJ/uj.c:345-352 | the intended result is an error exactly when the thread does not hold the monitor |
| Opcodes.MonitorExitSilent | uJ/uj.c:4224-4238 | a thread releasing another thread's monitor is told it succeeded, while the intended result is the monitor-state error |
| Hierarchy.ResolveIface | uJ/uj.c:2702-2724 | interface entry j of a class resolves by name search, per format |
| Hierarchy.IfaceTable | uJ/uj.c:2702-2724 | the resolved interface lists of all classes |
| Hierarchy.TableUnique | uJ/uj.c:2702-2724 | exactly one table fits the classes |
| Hierarchy.ChainWalk | uJ/uj.c:2675-2684 | the superclass walk reports a hit and, for an interface, the classes it marks |
| Hierarchy.IfaceScan | uJ/uj.c:2702-2731 | the interface loop gives success on a hit, the missing-dependency error on an unresolvable entry, otherwise false |
| Hierarchy.Rescan | uJ/uj.c:2686-2736 | the rescan expands marked classes and restarts from the newest after each |
| Hierarchy.InstanceOfSpec | uJ/uj.c:2648-2739 | the result code and marks of `instanceof`; the marks keep one entry per class |
| Hierarchy.ChainWalkHit | uJ/uj.c:2678-2684 | the chain walk hits exactly when the wanted class is the class or one of its superclasses |
| Hierarchy.ChainWalkMarks | uJ/uj.c:2678-2684 | a chain walk that does not meet the wanted class marks exactly the class and its superclasses with 1, and leaves every other mark alone |
| Hierarchy.ChainWalkExplored | uJ/uj.c:2667-2684 | for an interface, the chain walk from cleared marks marks only classes reachable from the object |
| Hierarchy.ChainWalkCovers | uJ/uj.c:2667-2684 | for an interface the walk misses, the rescan starts with the chain marked 1, the interface unmarked and nothing expanded |
| Hierarchy.IfaceScanSound | uJ/uj.c:2702-2731 | expanding a reachable Java class marks only reachable classes, and a hit is reachable |
| Hierarchy.IfaceScanFalse | uJ/uj.c:2702-2731 | an interface loop that answers false resolved every entry and left each entry's class marked 1, the wanted class's mark unchanged, and every other mark unchanged or 1 |
| Hierarchy.IfaceScanResolved | uJ/uj.c:2722-2723 | with every entry resolved, the interface loop never reports a missing dependency |
| Hierarchy.IfaceScanOwed | uJ/uj.c:2702-2731 | the expansions still owed grow by at most the interface paths starting at the entries walked |
| Hierarchy.RescanSound | uJ/uj.c:2686-2736 | a rescan hit is reachable, and the marks stay two bits wide |
| Hierarchy.ExpandCovers | uJ/uj.c:2690-2731 | an expansion that does not meet the wanted interface keeps it unmarked, the chain marked and every expanded class's entries marked, and the rescan restarts from the newest class |
| Hierarchy.CoveredUnreachable | uJ/uj.c:2686-2736 | once no Java class waits with mark 1 and every expanded class has its entries marked, an unmarked interface is not reachable |
| Hierarchy.RescanComplete | uJ/uj.c:2686-2738 | a rescan that answers false leaves the wanted interface unreachable |
| Hierarchy.RescanEnds | uJ/uj.c:2686-2736 | with every entry resolved, an acyclic interface graph and fuel at least the expansions owed, the rescan answers true or false and never runs out |
| Hierarchy.SearchSound | uJ/uj.c:2667-2736 | a rescan after the chain walk answers true only for a reachable interface |
| Hierarchy.SearchComplete | uJ/uj.c:2667-2738 | a rescan after the chain walk answers false only for an unreachable interface |
| Hierarchy.InterfaceSearch | uJ/uj.c:2667-2738 | the chain walk and rescan for an interface answer true exactly when it is reachable, otherwise false |
| Hierarchy.ClassInstanceOf | uJ/uj.c:2648-2739 | for an ordinary class, true exactly when the wanted class is the object's class or a superclass, false otherwise |
| Hierarchy.InstanceOfSound | uJ/uj.c:2648-2739 | `instanceof` never answers true wrongly: the wanted class is reachable from the object's class, up its superclass chain and then along interface entries of Java classes |
| Hierarchy.InterfaceInstanceOf | uJ/uj.c:2648-2739 | for an interface, with every entry resolved, an acyclic interface graph and fuel at least its path count, `instanceof` answers true exactly when the interface is reachable and false otherwise |
| Hierarchy.MissingClass | uJ/uj.c:2654-2656 | an unknown class name is reported before any mark changes |
| Hierarchy.ClearMarks | uJ/uj.c:2667-2672 | every class's mark becomes 0 and nothing else changes |
| Hierarchy.WalkChain | uJ/uj.c:2678-2684 | the loop computes `ChainWalk` |
| Hierarchy.ResolveEntry | uJ/uj.c:2703-2724 | the loop resolves an entry to `ResolveIface` |
| Hierarchy.ScanInterfaces | uJ/uj.c:2702-2731 | the loop computes `IfaceScan` |
| Hierarchy.ExpandClass | uJ/uj.c:2698-2731 | a marked class is marked 2 and its interfaces walked |
| Hierarchy.RescanClasses | uJ/uj.c:2686-2736 | the loop computes `Rescan` |
| Hierarchy.InstanceOf | uJ/uj.c:2648-2739 | the method computes `InstanceOfSpec` |
| Exceptions.FrameTable | uJ/uj.c:2750-2774 | where a frame's exception table starts, its entry count and its locals, per format |
| Exceptions.CoversAfterOpcode | uJ/uj.c:2785-2788 | for a one-byte throwing opcode, the test on the advanced pc is the half-open range start <= op < end |
| Exceptions.EntryVerdict | uJ/uj.c:2785-2803 | an entry is skipped, catches and gives the handler, or fails with the type test's error |
| Exceptions.ScanFromSkip | uJ/uj.c:2784-2804 | the scan passes exactly when every entry is skipped |
| Exceptions.ScanFromFirst | uJ/uj.c:2784-2804 | when the scan stops, it stops at the first entry that is not skipped |
| Exceptions.ScanTable | uJ/uj.c:2784-2804 | the table loop computes the scan |
| Exceptions.CutTo | uJ/uj.c:2777-2778 | the stack is popped down to the target |
| Exceptions.CutAndPush | uJ/uj.c:2776-2781 | cut the stack back to the frame's locals and push the exception, tagged |
| Exceptions.FrameSpecTop | uJ/uj.c:2776-2804 | a frame that catches or passes the exception on leaves it on top of its locals |
| Exceptions.ScanOutcome | uJ/uj.c:2784-2804 | a catch sets the pc to the handler relative to the method start |
| Exceptions.SetPc | uJ/uj.c:2801 | entering the handler changes the pc and nothing else |
| Exceptions.FrameSpecPushed | uJ/uj.c:2776-2804 | a frame whose push succeeded has the scan's outcome |
| Exceptions.CatchInFrame | uJ/uj.c:2750-2804 | one frame: cut, push, scan |
| Exceptions.FrameSpecCodes | uJ/uj.c:2784-2804 | a frame never fails with success, nor with the user-exception code |
| Exceptions.FrameSpecScan | uJ/uj.c:2784-2804 | a caught frame's pc is the handler of the entry its scan found, relative to the method start; a passed frame's scan found no catching entry |
| Exceptions.TryFrame | uJ/uj.c:2744-2804 | the frame step computes the frame outcome (stack, pc and outcome); a catch enters the scan's handler, a pass means no entry caught |
| Exceptions.ReturnFromFrame | uJ/uj.c:2807 | returning from an uncaught frame drops below its locals or finishes the thread |
| Exceptions.LeaveFrame | uJ/uj.c:2805-2813 | an uncaught frame returns to the caller, or ends the thread with the user-exception code |
| Exceptions.UnwindOnce | uJ/uj.c:2744-2809 | one pass of the unwinding loop: on success the frame is unchanged but for the pc, which is its first catching entry's handler; moving on to the caller, or ending with the user-exception code, means this frame's table caught nothing |
| Exceptions.Throw | uJ/uj.c:2742-2814 | the frames visited, starting from the throwing one: each but the last passes the exception over; on success the last catches it and the pc is its first catching entry's handler, with the exception on top of its locals; the user-exception code means the last passed it over too and the thread is finished |
| Scheduler.IndexOf | uJ/uj.c:4349-4353 | the first position of a handle in the chain |
| Scheduler.NextWithout | uJ/uj.c:4355-4356 | unlinking keeps every link except the predecessor's, which skips the dropped handle |
| Scheduler.ChainAdd | uJ/uj.c:875-901 | linking a new thread at the head keeps the chain well formed |
| Scheduler.ChainRemove | uJ/uj.c:4343-4365 | unlinking a thread keeps the chain well formed |
| Scheduler.Ring.constructor | uJ/uj.c:256-257 | no threads and no current thread at start |
| Scheduler.Ring.Add | uJ/uj.c:875-901 | a new thread goes to the front of the chain, and becomes current when it is the first; out of memory changes nothing |
| Scheduler.Ring.Destroy | uJ/uj.c:4343-4365 | a listed thread is unlinked and freed; an unlisted one gives the internal error and changes nothing |
| Scheduler.Ring.Unlink | uJ/uj.c:4355-4358 | the predecessor's link, or the head, takes the removed thread's link |
| Scheduler.ChainListed | uJ/uj.c:4343-4365 | a handle is on the chain exactly when it has a thread |
| Scheduler.TurnStops | uJ/uj.c:4316-4330 | a turn stops at its first instruction that fails or finishes the thread, and answers with that instruction's outcome |
| Scheduler.TurnFull | uJ/uj.c:4316-4330 | a turn whose instructions all succeed runs the whole quantum |
| Scheduler.TurnCodes | uJ/uj.c:4319-4323 | a turn never passes "retry later" on, and reports a dead thread only after an instruction that finished it |
| Scheduler.RunQuantum | uJ/uj.c:4316-4330 | the instruction loop computes the turn |
| Scheduler.Instr | uJ/uj.c:4306-4341 | one turn, then the next turn goes to the successor (the head after the last), and a dead thread is destroyed |
| Scheduler.Successor | uJ/uj.c:4332-4335 | the handle after the current one, or the head after the last |
| Gc.Raised | uJ/uj.c:4516-4604 | a mark never goes down |
| Gc.Arena.Mark | uJ/uj.c:4543-4594 | raising one handle's mark changes no other mark |
| Gc.Arena.FirstMarked | uJ/uj.c:4567 | some handle with the mark, or 0 exactly when there is none |
| Gc.ReachClosed | uJ/uj.c:4565-4600 | the reachable set holds the roots, lies in the arena and is closed under references |
| Gc.ReachLeast | uJ/uj.c:4565-4600 | the reachable set is the least closed set holding the roots |
| Gc.MarkRefs | uJ/uj.c:4589-4595 | every non-null reference of an object array is marked |
| Gc.MarkStack | uJ/uj.c:4553-4558 | every tagged non-null slot of a stack is marked |
| Gc.MarkThread | uJ/uj.c:4541-4562 | one thread: its own chunk 2, its instance and its stack references 1 |
| Gc.MarkChildren | uJ/uj.c:4569-4598 | marking a chunk's references keeps every mark within the reachable set and leaves each reference marked |
| Gc.Blacken | uJ/uj.c:4567-4600 | a handle marked 1 becomes 2 and its references become at least 1 |
| Gc.MarkClasses | uJ/uj.c:4526-4536 | the references held by every class's static fields become marked |
| Gc.MarkThreads | uJ/uj.c:4538-4563 | every thread on the chain marks its roots |
| Gc.Drain | uJ/uj.c:4565-4600 | step 2 ends with no chunk marked 1 and every root still marked, and marks only reachable chunks |
| Gc.MarkRoots | uJ/uj.c:4526-4563 | after step 1 exactly the roots are marked |
| Gc.RootsMarked | uJ/uj.c:4526-4563 | after step 1 exactly the roots are marked, and only chunks without references are marked 2 |
| Gc.Collect | uJ/uj.c:4516-4604 | from clear marks, the collector marks 2 exactly the chunks reachable from the roots and leaves the rest unmarked |
| Loader.Pack | riot/class_loader.c:16-79 | the image a packing tool writes: each body behind its 3-byte length, then a zero length |
| Loader.PackRecords | riot/class_loader.c:22-33 | reading a packed image gives back the bodies it was made from (round trip) |
| Loader.ReadLength | riot/class_loader.c:24-26 | the length field is the big-endian 24-bit value at the cursor |
| Loader.CountRecords | riot/class_loader.c:20-33 | the counting pass finds the number of records |
| Loader.TryRecord | riot/class_loader.c:54-65 | an unloaded record is handed to the class loader, with the main-class pointer only for record 0 |
| Loader.Visit | riot/class_loader.c:42-66 | a loaded record is skipped, another one tried, and the cursor moves past it |
| Loader.SkipStep | riot/class_loader.c:51-52 | skipping a loaded record keeps the state of the pass |
| Loader.TryStep | riot/class_loader.c:54-65 | a success marks the record and the pass as progressing; a missing dependency is remembered |
| Loader.Pass | riot/class_loader.c:40-66 | a pass stops at the first fatal answer and returns it; otherwise it reports progress exactly when it loaded something new, and every record it left unloaded lacks a dependency |
| Loader.AllLoaded | riot/class_loader.c:69-76 | the final check answers whether every record is loaded |
| Loader.LoadPacked | riot/class_loader.c:16-79 | at most one pass per record, plus one; a fatal answer is passed on; otherwise success exactly when every record is loaded, and each unloaded record lacks a dependency |
| Descriptors.TypeSlots | uJ/uj.c:2226-2262 | two slots for `long` and `double`, one for every other type |
| Descriptors.UjWalkType | uJ/uj.c:2226-2262 | one parameter's bytes count its slots, or none as an array's element type |
| Descriptors.UjWalkParams | uJ/uj.c:2226-2262 | the corrected invoke walk counts exactly the reference slots of a parameter list |
| Descriptors.UjWalkAsWrittenParams | uJ/uj.c:2226-2262 | the invoke walk as written agrees with the reference when no parameter is an array of objects |
| Descriptors.UjWalkObjectArrayMiss | uJ/uj.c:2254-2258 | `([LA;I)V`: as written the `int` after the object array is not counted |
| Descriptors.SkipClassName | uJ/uj.c:2257 | the class-name skip stops just after the first `;` of the string, and reports whether there was one |
| Descriptors.UjCountByte | uJ/uj.c:2226-2262 | one pass of the counting loop |
| Descriptors.UjParamSlots | uJ/uj.c:2214-2267 | a missing `(` gives the missing-method error; otherwise the 16-bit (`uint16_t`) count of the walk, `this` included for non-static calls |
| Descriptors.UjParamSlotsFixed | uJ/uj.c:2214-2267 | the corrected count is the reference slot count, `this` included for non-static calls |
| Descriptors.OptWalkType | classCvt/classOptimizer.c:109-137 | one parameter's bytes in the converter walk |
| Descriptors.OptWalkParams | classCvt/classOptimizer.c:109-137 | the corrected converter walk counts exactly the reference slots |
| Descriptors.OptWalkAsWrittenParams | classCvt/classOptimizer.c:109-137 | the converter walk as written agrees with the reference when no parameter is an array of arrays |
| Descriptors.OptWalkNestedArray | classCvt/classOptimizer.c:113-124 | `([[I)V`: as written two slots, against one by the reference |
| Descriptors.OptParamSlotsFixed | classCvt/classOptimizer.c:95-139 | the corrected converter count is the reference slot count |
| Descriptors.OptSkipClassName | classCvt/classOptimizer.c:128 | the converter's skip goes past the first `;` |
| Descriptors.OptParamSlots | classCvt/classOptimizer.c:95-139 | too short or no `(` is fatal; otherwise the walk's count, plus one for a non-static method |
| ConvClass.JClass.constructor | classCvt/class.h:119-146 | a parsed class with no constant marked |
| CodePasses.Index16 | classCvt/classOptimizer.c:202-204 | the big-endian index in the first two operand bytes |
| CodePasses.Operand | classCvt/classOptimizer.c:230-280 | the constant an instruction names; none for a specialised instruction |
| CodePasses.MentionedIff | classCvt/classOptimizer.c:230-280 | a constant is mentioned exactly when some instruction names it |
| CodePasses.MarkConstantsPass | classCvt/classOptimizer.c:230-280 | every constant an instruction names becomes used and directly used; no other mark changes |
| CodePasses.FixInstr | classCvt/classOptimizer.c:282-332 | a named constant's index is sent through the map, `ldc` keeping only the low byte; other instructions are unchanged |
| CodePasses.FixOperand | classCvt/classOptimizer.c:282-332 | after fixing, an instruction names the mapped constant, when an `ldc` index fits in a byte |
| CodePasses.FixConstantsPass | classCvt/classOptimizer.c:282-332 | each instruction is replaced by its fixed form |
| CodePasses.FindMember | classCvt/classOptimizer.c:70-73 | the first member with the name and descriptor, or the count when none |
| CodePasses.HandleLocals | classCvt/classOptimizer.c:38-156 | the method computes the specialisation `LocalRef`: keep, fatal, or the three rewritten operand bytes |
| CodePasses.LocalFieldBound | classCvt/classOptimizer.c:54-86 | a bound field access carries the type and offset of the first own field with that name and descriptor |
| CodePasses.LocalCallBound | classCvt/classOptimizer.c:87-146 | a bound call carries the index of the first own method with that name and descriptor, and one more than its slot count |
| CodePasses.LocalCallSlots | classCvt/classOptimizer.c:87-146 | for a descriptor with no array of arrays, a bound call counts the reference slots |
| CodePasses.PushRaw | classCvt/classOptimizer.c:185-190 | the immediate push of a 32-bit value |
| CodePasses.PushRawValue | classCvt/classOptimizer.c:183-190 | the immediate push carries the constant's value |
| CodePasses.OptInstr | classCvt/classOptimizer.c:158-228 | one instruction of the rewriting pass; none where the converter stops |
| CodePasses.OptInstrDropsReferences | classCvt/classOptimizer.c:158-228 | a rewritten instruction names no constant, and a rewritten `ldc` pushes the constant's value |
| CodePasses.OptimizeOne | classCvt/classOptimizer.c:165-226 | one turn of the pass computes `OptInstr` |
| CodePasses.OptimizationPass | classCvt/classOptimizer.c:158-228 | every instruction is rewritten by `OptInstr`, or the pass reports an instruction where the converter stops |
| PoolMarks.MarkDirect | classCvt/classOptimizer.c:483-519 | constant idx gets both marks |
| PoolMarks.MarkList | classCvt/classOptimizer.c:495-500 | every interface gets both marks |
| PoolMarks.MarkMembers | classCvt/classOptimizer.c:502-518 | every member's name and descriptor get both marks |
| PoolMarks.MarkCatchTypes | classCvt/classOptimizer.c:470-478 | every non-zero catch type gets both marks |
| PoolMarks.MarkDeclared | classCvt/classOptimizer.c:483-519 | exactly the constants the declarations name gain both marks |
| PoolMarks.MarkTargets | classCvt/classOptimizer.c:527-561 | the strings one directly used reference leads to become used |
| PoolMarks.MarkIndirect | classCvt/classOptimizer.c:521-562 | exactly what the directly used references lead to, in one step, becomes used |
| MethodCode.OptimiseCodeAttr | classCvt/classOptimizer.c:414-480 | one code attribute: rewritten, then everything its code and handlers name is marked |
| MethodCode.OptimiseMethod | classCvt/classOptimizer.c:405-481 | a method's code attributes; a second one is fatal |
| MethodCode.OptimiseCode | classCvt/classOptimizer.c:403-481 | every method's code optimised and marked, in order |
| MethodCode.FixCatchTypes | classCvt/classOptimizer.c:676-688 | the catch types go through the map |
| MethodCode.FixCodeAttr | classCvt/classOptimizer.c:637-688 | a code attribute's code and catch types go through the map |
| MethodCode.FixMethod | classCvt/classOptimizer.c:629-690 | one method's code is fixed |
| MethodCode.FixCode | classCvt/classOptimizer.c:627-690 | every method's code is fixed |
| MethodCode.RemapAttr | classCvt/classOptimizer.c:334-347 | an attribute's name and nested attributes' names go through the map; nothing else changes |
| MethodCode.RemapAttrs | classCvt/classOptimizer.c:334-347 | every attribute of a list renamed |
| MethodCode.RemapAttrList | classCvt/classOptimizer.c:334-347 | the in-place renaming computes `RemapAttrs` |
| MethodCode.RemapAttrInverse | classCvt/classOptimizer.c:334-347 | renaming by the inverse map gives back the original attribute |
| MethodCode.RemapAttrsInverse | classCvt/classOptimizer.c:334-347 | the same for a list |
| ConstantOrder.CountIn | classCvt/classOptimizer.c:573-625 | how many of the first i constants are in a group |
| ConstantOrder.CountStrict | classCvt/classOptimizer.c:573-625 | a constant of a group is counted before any later one |
| ConstantOrder.NewIndexRange | classCvt/classOptimizer.c:573-625 | each new index lies in its group's range, and the ranges tile 1..n |
| ConstantOrder.NewIndexOrder | classCvt/classOptimizer.c:573-625 | new order: direct, then used, then unused, each group in its original order (a stable sort by group) |
| ConstantOrder.NewIndexInjective | classCvt/classOptimizer.c:573-625 | different constants get different new indices |
| ConstantOrder.DirectNeverRises | classCvt/classOptimizer.c:588-599 | a directly used constant never moves up, so an 8-bit `ldc` operand still fits |
| ConstantOrder.Boundaries | classCvt/classOptimizer.c:573-625 | exactly the directly used constants fall below the addressable boundary, and exactly the used ones below the placed boundary |
| ConstantOrder.PlaceOne | classCvt/classOptimizer.c:589-599 | one turn of a placing loop |
| ConstantOrder.PlaceGroup | classCvt/classOptimizer.c:588-624 | one placing loop gives its group's constants the next free indices, in order |
| ConstantOrder.BuildMaps | classCvt/classOptimizer.c:573-625 | the forward map gives `NewIndex`, the reverse map inverts it, and the two boundaries are counted |
| ConstantOrder.MapsInverse | classCvt/classOptimizer.c:573-625 | the two maps are inverse permutations |
| ConstantOrder.Permute | classCvt/classOptimizer.c:749-766 | the moved pool holds old entry `rmap[i + 1] - 1` at i |
| ConstantOrder.MovedAt | classCvt/classOptimizer.c:749-766 | a moved constant is found at its forward-mapped index |
| Renumber.RemapConst | classCvt/classOptimizer.c:732-747 | a reference constant's index words go through the map; nothing else changes |
| Renumber.RemapConstInverse | classCvt/classOptimizer.c:732-747 | renumbering by the inverse map gives back the original constant |
| Renumber.RemapPool | classCvt/classOptimizer.c:732-747 | every constant renumbered |
| Renumber.RemapMember | classCvt/classOptimizer.c:708-724 | a member's name, descriptor and attribute names renumbered; nothing else changes |
| Renumber.RemapMemberInverse | classCvt/classOptimizer.c:708-724 | renumbering by the inverse map gives back the original member |
| Renumber.RemapMembers | classCvt/classOptimizer.c:708-724 | every field or method renumbered |
| Renumber.RemapList | classCvt/classOptimizer.c:702-706 | every interface index renumbered |
| Renumber.RemapDeclared | classCvt/classOptimizer.c:692-730 | this class and the superclass re-pointed to their names, every interface, member and attribute renumbered |
| Optimizer.Infos | classCvt/classOptimizer.c:366-370 | per field: static or not, and its type character |
| Optimizer.LaidOut | classCvt/classOptimizer.c:359-401 | each field gets its type character and its 16-bit offset in its group; nothing else changes |
| Optimizer.OffsetStep | classCvt/classOptimizer.c:396-399 | a field is placed at its group's running offset, which then moves past it |
| Optimizer.ComputeOffsets | classCvt/classOptimizer.c:359-401 | the fields become `LaidOut` |
| Optimizer.PlaceField | classCvt/classOptimizer.c:361-400 | one turn of the offset loop |
| Optimizer.LaidOutDisjoint | classCvt/classOptimizer.c:359-401 | while a group fits in 16 bits, its fields do not overlap |
| Optimizer.MarkStage | classCvt/classOptimizer.c:403-562 | code optimisation and every marking step |
| Optimizer.RenumberStage | classCvt/classOptimizer.c:627-747 | the code fix and every renumbering, through the forward map |
| Optimizer.MoveArray | classCvt/classOptimizer.c:758-766 | entry j goes to `fm[j + 1] - 1` |
| Optimizer.OrderStage | classCvt/classOptimizer.c:573-625 | the maps and boundaries that `NewIndex` specifies |
| Optimizer.MoveStage | classCvt/classOptimizer.c:749-774 | the pool and its marks moved; the declarations unchanged |
| Optimizer.RemappedPool | classCvt/classOptimizer.c:732-747 | the pool with every reference renumbered |
| Optimizer.ReorderStage | classCvt/classOptimizer.c:573-774 | maps, fix, renumbering, move: the final pool is the renumbered pool in the new order |
| Optimizer.TargetsAreRefs | classCvt/classOptimizer.c:521-562 | reference constants lead where the cascade and the renumbering can follow |
| Optimizer.Optimize | classCvt/classOptimizer.c:349-775 | success exactly when no code attribute is fatal; then the marks, the new order, the renumbered declarations and code, and the moved pool are all as specified |
| Optimizer.ReadyToReorder | classCvt/classOptimizer.c:573-747 | after the marking, everything the renumbering reads lies in the pool |
| Optimizer.CodeFollowsFix | classCvt/classOptimizer.c:627-690 | the final code names, through the map, what the optimised code named |
| Optimizer.OptimisedInRange | classCvt/classOptimizer.c:403-481 | the optimised code names only pool constants |
| Optimizer.InstrFollows | classCvt/classOptimizer.c:282-332 | the fix loses no bit: an `ldc` names a directly used constant, which never moves up |

## Left out

- I/O and the host are not modelled:
  - the class byte source is a `seq<byte>`, and a read past its end gives 0;
  - the heap allocator, handle locking and native classes' callbacks are parameters or abstract;
  - `printf` and `exit` in the converter become a `false` or `None` result;
  - the debug dump (`dumpcode`, `DEBUG`) is left out.
- Host byte order: the in-place stores of `ujThreadPrvPut32`/`Put16` read the value byte by byte in host order; the model takes the host to be little-endian.
- Compile-time options: the model takes the configuration with long, double, exceptions, synchronisation, both class formats and class-search hashing on (the hash is a flag of the class list).
- Interface calls, `GetMethodAddr`, the native call path and the other opcodes of `ujThreadPrvInstr` are not modelled. `ujThreadPrvGoto` is not a separate member: the frame a call builds is stated by `Threads.InvokeFrameLayout`.
- ClassFiles.FindConstClass: a constant walk that passes index 0 through the second slot of a `long` or `double` (where the C counter wraps to 65535 and walks on) gives `None`.
- Hierarchy.InstanceOf: the rescan over interfaces is bounded by a `fuel` count of expansions; the C has no bound, and in the model a rescan that needs more expansions than the fuel ends with the internal error (`Hierarchy.Rescan`). A bound is needed because an expanded class is marked 2 but the C marks every interface it meets 1 again (uJ/uj.c:2724), even one already expanded: the number of expansions is not bounded by the number of classes, only by the number of interface paths (`Hierarchy.PathBound`), and with a cycle among interfaces the C can loop for ever. `Hierarchy.InterfaceInstanceOf` shows that this fuel suffices when the interface graph is acyclic.
- Exceptions.Throw: a frame whose stack pointer is below its locals base, or whose return fails, stops with the internal error instead of looping as the C would.
- Exceptions.Throw: the `frames` it returns are the frames the search went through, and its `ensures` puts each one through the handler scan (`Exceptions.Passes`, `Exceptions.CatchesAt`). It does not state that each frame is the caller that the return out of the previous frame restored. That fact is stated one step at a time by `Threads.Thread.Ret`.
- Gc.MarkRefs: an instance's fields are given as the list of references they hold; the field walk of `ujGcPrvMarkClass` (native callbacks, the field-table loop) is not modelled. `ujHeapFirstMarked` may return any handle with the mark.
- Registry.ClassTable.LoadClass: static constant initialisation (left as a TODO in the source) is absent from the source too; the allocation outcome is a parameter.
- Loader.LoadPacked: `ujLoadClass` is a function parameter of the class body, of whether it gets the main-class pointer and of the loaded flags, so the model does not follow the classes it loads into the class list; the class `ujLoadClass` writes through the `mainClass` pointer is not modelled.
- Scheduler.Instr: the instructions of a turn are a function parameter giving each step's code and whether the thread finished.
- Optimizer.Optimize:
  - the basic-block engine (code parsing, pc relocation, export) is not modelled;
  - a method's code is the list of instructions the engine hands to a pass;
  - the class is required to arrive with every mark clear and every constant it refers to readable, as the class reader leaves it;
  - the single step of the const-to-const cascade follows the code: a member reference marks its class's name string and its name-and-type's strings, but not the class constant and the name-and-type constant themselves, which a member reference reaches only directly;
  - the raw value of a reference constant is not kept up to date by the renumbering (the C stores the indices in the same bytes).
- Optimizer.ComputeOffsets: the field offset and type are written in one update of the field record; the C writes them one after the other, with the same result.
- Registry.ClassTable.RegisterNativeClass: a class without a superclass gets instance and class data offsets 0; the source leaves those fields as the allocator hands them out, taken to be cleared memory.
- Descriptors.SkipClassName: when no `;` is left in the descriptor, the C's `while (len-- && ...)` leaves the 16-bit length at 0xFFFF and the invoke walk reads on past the string; the model ends the walk at the end of the string (`found` is false), so `Descriptors.UjParamSlots` follows the C only for descriptors whose class names end in `;`.
- CodePasses.HandleLocals: a method descriptor with no `)`, or a class name with no `;`, ends the slot count at the end of the text; the C reads on past the string.
- Threads.Thread.constructor: the allocator is taken to hand out cleared memory, so the new stack and its tags start at zero.

## Findings

| source | as written | input that shows it | evidently intended | confidence | as-written member | corrected member |
|---|---|---|---|---|---|---|
| uJ/uj.c:3974-3984 | an in-range `tableswitch` key reads its jump offset at aligned base + 8 + 4 * (key - low) | key == low: the word read is `high`, not the first jump offset | the jump offsets start at base + 12, after default, low and high | not executed | Branches.TableSwitchAsWrittenIsOneEarly | Branches.TableSwitchSelects |
| uJ/uj.c:3940-3943 | `if_acmpne` branches when the two references are equal, like `if_acmpeq` | references 1 and 2: `if_acmpne` falls through | `if_acmpne` branches when the references differ | not executed | Branches.AcmpneAsWrittenFallsThrough | Branches.AcmpComplements |
| uJ/uj.c:3801-3809 | `lcmp` takes the sign of value2 - value1 computed with 64-bit wrap-around | value1 = -2^63, value2 = 1: the result is 1 (greater) | -1, because value1 < value2 | not executed | Opcodes.LcmpOverflow | Opcodes.LcmpFixedOrder |
| uJ/uj.c:4224-4238 | `ujThreadPrvMonExit` returns error codes through `bool`, so `monitorexit` reads the failure as 1 and the success as 0, and reports success either way | a thread releases a monitor held by another thread | the monitor-state error | not executed | Opcodes.MonitorExitSilent | Opcodes.MonitorExit |
| uJ/uj.c:2254-2258 | in the invoke path's slot count, the counting flag is not set again after `[L...;` | `([LA;I)V`: the `int` is not counted, giving 1 slot instead of 2 | every parameter after an array is counted | not executed | Descriptors.UjWalkObjectArrayMiss | Descriptors.UjWalkParams |
| classCvt/classOptimizer.c:120-124 | in the converter's slot count, each `[` counts a slot | `([[I)V`: 2 slots | 1 slot, because an array is one reference | not executed | Descriptors.OptWalkNestedArray | Descriptors.OptWalkParams |
