# A Dafny model of bat's class-file dataflow core

bat is a Kotlin library that reads, edits and writes JVM class files. This
project models the part of it that analyses and rewrites method code:

- **The two code analyzers** (`evaluation/CodeAnalyzer.kt` and
  `verifier/CodeAnalyzer.kt`). Each runs a worklist over a method's basic
  blocks and gives every reachable instruction a frame before and a frame after.
  - The evaluation analyzer works on `Value`s in `Frame` objects, whose liveness
    flags are shared between frames.
  - The verifier analyzer works on `VariableType`s.
  - Both sets of update rules are modelled once, generic over the value domain
    (`FrameUpdates`, `StackShuffles`). `AnalyzerDomains` proves that the verifier
    rule applied to abstracted frames gives the abstraction of the evaluation rule.
  - The worklist driver (`CodeAnalyzers.Analyzer`) is an imperative class over
    arrays. It is proved against the predicate `Evaluated`: the entry frame is
    the initial frame, and every instruction on a control-flow path from offset
    0 or a handler has been evaluated, with its successors enqueued and flagged.
- **`Frame`** (`Frames.Frame`): a stack and a variable list, plus liveness cells
  that copies share. Its value-level meaning is `FrameStates`.
- **The stack map table.** `StackMapFrame` and its seven kinds are modelled with
  the factories and the byte reading and writing (`StackMapFrames`).
  `StackMapTableComputer` chooses a frame for every branch target
  (`StackMapTables`). `LocalVariableSizeComputer` is a frame processor
  (`EvaluationAnalyzer`).
- **The constant pool** (`ConstantPools.ConstantPool`): a list of optional
  constants plus the constant-to-index map. The model covers reading and writing
  the pool, and the editor's add-or-get operations (`ConstantPoolEditors`).
  The model also covers the constants themselves: their factories, their byte
  encodings, `copyWith`, equality and the constants each one references
  (`Constants`, `ConstantReferences`). `ConstantUsageMarker` is a class with an
  identity-keyed set.
- **Small class-file structures**: `ExceptionsAttribute`, the module's
  `ExportsEntry`/`OpensEntry` and `RequiresEntry`, `ClassElementValue`, and
  `Visibility`.

Byte formats follow chapter 4 of the Java Virtual Machine Specification:
- section 4.4 for constants;
- section 4.7.4 for stack map frames and verification types;
- section 4.7.5 for the Exceptions attribute;
- section 4.7.16.1 for element values;
- section 4.7.25 for the Module attribute.

Instruction semantics follow chapter 6. Bytes are `Bytes.Byte` values in
0..255. Multi-byte values are big-endian. Signed 32- and 64-bit values are
written in two's complement.

The source cells of the table give paths in the repository; the class-file
code lives under `classfile/src/main/kotlin/org/tinygears/bat/classfile/`.

## Model

| member | source | states |
|---|---|---|
| Visibilities.FirstWithFlag | classfile/src/main/kotlin/org/tinygears/bat/classfile/Visibility.kt:32-37 | the search succeeds exactly when some visibility has the masked value as its flag value, and the one found has it |
| Visibilities.Of | classfile/src/main/kotlin/org/tinygears/bat/classfile/Visibility.kt:30-38 | the loop over the visibilities in declaration order returns the first one whose flag equals `accessFlags and 7`, or fails as the source throws |
| Visibilities.OfFlagValue | classfile/src/main/kotlin/org/tinygears/bat/classfile/Visibility.kt:23-37 | `of` inverts `flagValue`: flags whose masked value is a visibility's flag value give that visibility |
| Visibilities.OfAccepts | classfile/src/main/kotlin/org/tinygears/bat/classfile/Visibility.kt:31-37 | `of` succeeds if and only if the masked flags are 0, 1, 2 or 4, so 3, 5, 6 and 7 are rejected |
| ConstantUsage.ConstantUsageMarker.constructor | classfile/src/main/kotlin/org/tinygears/bat/classfile/constant/editor/ConstantUsageMarker.kt:22-23 | a new marker has marked nothing |
| ConstantUsage.ConstantUsageMarker.MarkUsed | classfile/src/main/kotlin/org/tinygears/bat/classfile/constant/editor/ConstantUsageMarker.kt:25-31 | marking adds exactly the given object to the used set: afterwards it is used, and every other object's mark is as it was |
| ConstantUsage.ConstantUsageMarker.IsUsed | classfile/src/main/kotlin/org/tinygears/bat/classfile/constant/editor/ConstantUsageMarker.kt:29-31 | an object is used exactly when it is in the marked set, which only `MarkUsed` of that object changes |
| ConstantUsage.ConstantUsageMarker.MarkUsedIsByIdentity | classfile/src/main/kotlin/org/tinygears/bat/classfile/constant/editor/ConstantUsageMarker.kt:22-32 | the map is keyed by identity: marking one constant object leaves an equal but distinct object unmarked |
| ConstantPools.Lookup | classfile/src/main/kotlin/org/tinygears/bat/classfile/constant/ConstantPool.kt:41-44 | an index resolves exactly when it is in range and holds a constant, and then to that constant |
| ConstantPools.ConstantPool.Empty | classfile/src/main/kotlin/org/tinygears/bat/classfile/constant/ConstantPool.kt:126-129 | an empty pool holds only the unused slot 0 and an empty map, and is consistent |
| ConstantPools.ConstantPool.Get | classfile/src/main/kotlin/org/tinygears/bat/classfile/constant/ConstantPool.kt:41-44 | `get` fails on a missing or unused index and otherwise returns the stored constant |
| ConstantPools.ConstantPool.Set | classfile/src/main/kotlin/org/tinygears/bat/classfile/constant/ConstantPool.kt:46-56 | `set` succeeds if and only if the slot is empty or holds a constant of the same kind. The slot then holds the new constant; the map loses the old one and maps the new one to the index. On failure nothing changes. Consistency is kept |
| ConstantPools.ConstantPool.AddConstant | classfile/src/main/kotlin/org/tinygears/bat/classfile/constant/ConstantPool.kt:58-69 | the constant is appended at the old size, followed by an unused slot when it is a long or double, and is mapped to its index. Consistency is kept |
| ConstantPools.ConstantPool.GetConstantIndex | classfile/src/main/kotlin/org/tinygears/bat/classfile/constant/ConstantPool.kt:71-73 | an unmapped constant gives -1; in a consistent pool, a mapped one gives a valid index holding that constant |
| ConstantPools.ConstantPool.Read | classfile/src/main/kotlin/org/tinygears/bat/classfile/constant/ConstantPool.kt:76-91 | the loop leaves the constants that the pool decoder reads (a long or double takes two slots) and does not touch the map |
| ConstantPools.ConstantPool.Write | classfile/src/main/kotlin/org/tinygears/bat/classfile/constant/ConstantPool.kt:94-105 | the loop writes the entry count and then each present constant's tag and info, in order |
| ConstantPools.ReadPool | classfile/src/main/kotlin/org/tinygears/bat/classfile/constant/ConstantPool.kt:76-91 | a missing count is an error; slot 0 of a read pool is empty |
| ConstantPools.WritePool | classfile/src/main/kotlin/org/tinygears/bat/classfile/constant/ConstantPool.kt:94-105 | the written bytes start with the slot count, index 0 included, modulo 2^16 |
| ConstantPools.ReadEntriesFromAt | classfile/src/main/kotlin/org/tinygears/bat/classfile/constant/ConstantPool.kt:80-90 | reading the entries back from their written bytes gives the same slots, unused slots after wide constants included |
| ConstantPools.ReadPoolAt | classfile/src/main/kotlin/org/tinygears/bat/classfile/constant/ConstantPool.kt:76-105 | round trip: reading a written, well-formed pool gives the same pool and ends where the bytes end |
| ConstantPools.ReadEntryAt | classfile/src/main/kotlin/org/tinygears/bat/classfile/constant/ConstantPool.kt:80-81 | one written entry reads back: the tag selects the constant's own empty constant, whose info reader reads the written info |
| ConstantPools.ReadWrittenPool | classfile/src/main/kotlin/org/tinygears/bat/classfile/constant/ConstantPool.kt:76-105 | round trip with the entry reader: a well-formed pool of non-UTF-8 constants whose fields fit reads back from its written bytes, ending where they end |
| ConstantPools.VisitsFrom | classfile/src/main/kotlin/org/tinygears/bat/classfile/constant/ConstantPool.kt:107-109 | `accept` visits exactly the present constants with their indices, in increasing index order |
| ConstantPools.ConstantAccept | classfile/src/main/kotlin/org/tinygears/bat/classfile/constant/ConstantPool.kt:111-116 | an index outside 1 until size visits nothing. An unused index in range fails the check. Any other index visits that one constant |
| ConstantReferences.PoolReferencedFrom | classfile/src/main/kotlin/org/tinygears/bat/classfile/constant/ConstantPool.kt:118-120 | the pool's referenced-constants walk succeeds if and only if every present constant's walk succeeds |
| ConstantPoolEditors.ConstantPoolEditor.Of | classfile/src/main/kotlin/org/tinygears/bat/classfile/constant/editor/ConstantPoolEditor.kt:170-173 | an editor works on the class file's own pool object |
| ConstantPoolEditors.ConstantPoolEditor.ReplaceConstant | classfile/src/main/kotlin/org/tinygears/bat/classfile/constant/editor/ConstantPoolEditor.kt:24-26 | replacing succeeds exactly when `set` does. The slot then holds the new constant and the map finds it there |
| ConstantPoolEditors.ConstantPoolEditor.AddOrGet | classfile/src/main/kotlin/org/tinygears/bat/classfile/constant/editor/ConstantPoolEditor.kt:28-36 | add-or-get returns the existing index of an interned constant and changes nothing. Otherwise it appends the constant. Either way the index holds the constant, and the pool stays consistent and only grows |
| ConstantPoolEditors.ConstantPoolEditor.AddOrGetUtf8 | classfile/src/main/kotlin/org/tinygears/bat/classfile/constant/editor/ConstantPoolEditor.kt:28-36 | the returned index resolves to the string, and the pool is unchanged exactly when the string was already interned |
| ConstantPoolEditors.ConstantPoolEditor.AddOrGetInteger | classfile/src/main/kotlin/org/tinygears/bat/classfile/constant/editor/ConstantPoolEditor.kt:38-46 | the index holds the integer constant and is the one interned for it; a new integer is appended as the last slot, and the pool is unchanged exactly when it was interned |
| ConstantPoolEditors.ConstantPoolEditor.AddOrGetLong | classfile/src/main/kotlin/org/tinygears/bat/classfile/constant/editor/ConstantPoolEditor.kt:48-56 | the index holds the long constant and is the one interned for it. A newly added long takes two slots, the second one unused |
| ConstantPoolEditors.ConstantPoolEditor.AddOrGetClass | classfile/src/main/kotlin/org/tinygears/bat/classfile/constant/editor/ConstantPoolEditor.kt:78-87 | the index resolves to a class constant naming the class, and the pool is unchanged exactly when that class was interned |
| ConstantPoolEditors.ConstantPoolEditor.AddOrGetNameAndType | classfile/src/main/kotlin/org/tinygears/bat/classfile/constant/editor/ConstantPoolEditor.kt:89-99 | the index holds a name-and-type whose two indices resolve to the name and the descriptor. Only UTF-8 and name-and-type entries are added |
| ConstantPoolEditors.ConstantPoolEditor.AddOrGetRef | classfile/src/main/kotlin/org/tinygears/bat/classfile/constant/editor/ConstantPoolEditor.kt:101-135 | the index holds a field, method or interface-method reference of the requested kind, and its class, member name and descriptor resolve to the arguments |
| ConstantPoolEditors.ConstantPoolEditor.AddOrGetInvokeDynamic | classfile/src/main/kotlin/org/tinygears/bat/classfile/constant/editor/ConstantPoolEditor.kt:137-146 | succeeds exactly when the bootstrap index is not negative. Having no equality of its own, the constant is always appended, and it resolves to the name and descriptor |
| ConstantPoolEditors.ConstantPoolEditor.AddOrGetMethodType | classfile/src/main/kotlin/org/tinygears/bat/classfile/constant/editor/ConstantPoolEditor.kt:148-157 | the index holds a method type whose descriptor resolves to the argument and is the one interned for the method type over the descriptor's interned index, and the pool is unchanged exactly when both were interned |
| ConstantPoolEditors.ConstantPoolEditor.AddOrGetMethodHandleAsWritten | classfile/src/main/kotlin/org/tinygears/bat/classfile/constant/editor/ConstantPoolEditor.kt:159-168 | as written, the handle always points at a method reference, whatever the reference kind |
| ConstantPoolEditors.MethodHandleAsWrittenWrongTarget | classfile/src/main/kotlin/org/tinygears/bat/classfile/constant/editor/ConstantPoolEditor.kt:159-168 | a method reference is the wrong target for `REF_getField` and `REF_invokeInterface`, while the corrected choice fits every kind |
| ConstantPoolEditors.ConstantPoolEditor.AddOrGetMethodHandle | classfile/src/main/kotlin/org/tinygears/bat/classfile/constant/editor/ConstantPoolEditor.kt:159-168 | corrected: the handle points at a reference of the type its kind requires, so its referenced-constants walk succeeds; that reference and the handle over its interned index are interned, the handle at the returned index |
| ConstantPoolEditors.RefTypeFor | classfile/src/main/kotlin/org/tinygears/bat/classfile/constant/MethodHandleConstant.kt:73-97 | the reference type chosen for a kind is one that the handle's referenced-constants walk accepts |
| Constants.ReferenceKindOf | classfile/src/main/kotlin/org/tinygears/bat/classfile/constant/MethodHandleConstant.kt:143-145 | `ReferenceKind.of` succeeds exactly for 1..9 and returns the kind with that value |
| Constants.ReferenceKindOfValue | classfile/src/main/kotlin/org/tinygears/bat/classfile/constant/MethodHandleConstant.kt:127-145 | `of(value)` inverts `value` for every kind |
| Constants.FindBySimpleName | classfile/src/main/kotlin/org/tinygears/bat/classfile/constant/MethodHandleConstant.kt:147-154 | the search succeeds exactly when some kind has the text as its simple name, and returns such a kind |
| Constants.OfSimpleName | classfile/src/main/kotlin/org/tinygears/bat/classfile/constant/MethodHandleConstant.kt:147-154 | the loop in declaration order returns the first kind with that simple name, or fails as the source does |
| Constants.SimpleNameInjective | classfile/src/main/kotlin/org/tinygears/bat/classfile/constant/MethodHandleConstant.kt:128-137 | no two kinds share a simple name |
| Constants.OfSimpleNameInverse | classfile/src/main/kotlin/org/tinygears/bat/classfile/constant/MethodHandleConstant.kt:147-154 | `ofSimpleName(k.simpleName)` is `k` for every kind |
| Constants.OfSimpleNameKnown | classfile/src/main/kotlin/org/tinygears/bat/classfile/constant/MethodHandleConstant.kt:147-154 | `ofSimpleName` fails exactly on texts that are no kind's simple name |
| Constants.MethodHandleConstantOf | classfile/src/main/kotlin/org/tinygears/bat/classfile/constant/MethodHandleConstant.kt:120-123 | the factory succeeds exactly for a positive reference index and stores both arguments |
| Constants.MethodHandleCopyWith | classfile/src/main/kotlin/org/tinygears/bat/classfile/constant/MethodHandleConstant.kt:49-51 | the copy takes each given field and keeps each omitted one |
| Constants.ReadMethodHandleInfoAt | classfile/src/main/kotlin/org/tinygears/bat/classfile/constant/MethodHandleConstant.kt:54-63 | round trip: a written kind byte and reference index read back as the same handle |
| ConstantReferences.MethodHandleVisitMatchesTarget | classfile/src/main/kotlin/org/tinygears/bat/classfile/constant/MethodHandleConstant.kt:73-97 | when the target's type fits the kind, the walk visits the one reference index as a constant of the target's type |
| ConstantReferences.InvokeTargetFailure | classfile/src/main/kotlin/org/tinygears/bat/classfile/constant/MethodHandleConstant.kt:85-93 | for `REF_invokeStatic` and `REF_invokeSpecial`, the walk fails exactly when the target is not a method or interface-method reference |
| ConstantReferences.MethodHandleVisitFor | classfile/src/main/kotlin/org/tinygears/bat/classfile/constant/MethodHandleConstant.kt:73-97 | the visit a handle makes expects the target's constant type at the reference index |
| Constants.Equals | classfile/src/main/kotlin/org/tinygears/bat/classfile/constant/RefConstant.kt:78-86 | equality is field-wise within one kind, so references of different kinds with the same indices differ |
| Constants.StringConstantOf | classfile/src/main/kotlin/org/tinygears/bat/classfile/constant/StringConstant.kt:66-69 | the factory succeeds exactly for a positive string index |
| Constants.NameAndTypeConstantOf | classfile/src/main/kotlin/org/tinygears/bat/classfile/constant/NameAndTypeConstant.kt:102-106 | the factory succeeds exactly when both indices are positive, and stores them |
| Constants.MethodTypeConstantOf | classfile/src/main/kotlin/org/tinygears/bat/classfile/constant/MethodTypeConstant.kt:90-93 | the factory succeeds exactly for a positive descriptor index |
| Constants.PackageConstantOf | classfile/src/main/kotlin/org/tinygears/bat/classfile/constant/PackageConstant.kt:90-93 | the factory succeeds exactly for a positive name index |
| Constants.RefConstantOf | classfile/src/main/kotlin/org/tinygears/bat/classfile/constant/FieldrefConstant.kt:49-53 | the field, method and interface-method factories succeed exactly when both indices are positive |
| Constants.BootstrapRefConstantOf | classfile/src/main/kotlin/org/tinygears/bat/classfile/constant/InvokeDynamicConstant.kt:49-53 | the dynamic and invoke-dynamic factories accept a bootstrap index of 0 or more and a positive name-and-type index |
| Constants.CopyWithIndices | classfile/src/main/kotlin/org/tinygears/bat/classfile/constant/FieldrefConstant.kt:32-34 | `copyWith` keeps the kind, takes each given index and keeps each omitted one |
| Constants.CopyWithNothing | classfile/src/main/kotlin/org/tinygears/bat/classfile/constant/InvokeDynamicConstant.kt:32-34 | a copy with no arguments equals the original exactly when it is not a bootstrap constant or keeps its identity |
| Constants.MethodTypeCopyWith | classfile/src/main/kotlin/org/tinygears/bat/classfile/constant/MethodTypeConstant.kt:44-46 | the copy takes the given descriptor index or keeps the old one |
| Constants.ReadConstantInfoAt | classfile/src/main/kotlin/org/tinygears/bat/classfile/constant/RefConstant.kt:58-67 | round trip: every non-UTF-8 constant's info reads back from its written bytes as the same constant |
| Constants.WriteConstantInfo | classfile/src/main/kotlin/org/tinygears/bat/classfile/constant/RefConstant.kt:63-67 | each info has its class-file width: 4 bytes for an integer, 8 for a long, 3 for a method handle, 4 for two indices and 2 for one |
| Constants.ReadConstantInfo | classfile/src/main/kotlin/org/tinygears/bat/classfile/constant/RefConstant.kt:57-61 | reading keeps the class of the empty constant and a bootstrap constant's identity, and gives fields that fit their widths |
| Constants.EmptyOfTag | classfile/src/main/kotlin/org/tinygears/bat/classfile/constant/ConstantPool.kt:81 | a known tag gives the empty constant of the type with that tag; UTF-8 and unknown tags are errors |
| Constants.ReadEntry | classfile/src/main/kotlin/org/tinygears/bat/classfile/constant/ConstantPool.kt:81 | an entry read is never UTF-8, its fields fit, and its type has the tag byte that was read |
| Constants.ReadIntegerInfoAt | classfile/src/main/kotlin/org/tinygears/bat/classfile/constant/IntegerConstant.kt:43-50 | a signed 32-bit value written as four bytes reads back unchanged |
| Constants.ReadLongInfoAt | classfile/src/main/kotlin/org/tinygears/bat/classfile/constant/LongConstant.kt:43-55 | a signed 64-bit value written as its high and low words reads back unchanged |
| Constants.LongWordsRoundTrip | classfile/src/main/kotlin/org/tinygears/bat/classfile/constant/LongConstant.kt:43-55 | combining the unsigned high and low words of a 64-bit value gives the value back |
| Constants.ReadLongAt | classfile/src/main/kotlin/org/tinygears/bat/classfile/constant/LongConstant.kt:43-48 | the two four-byte reads give the words that combine to the value |
| Constants.ReadStringInfoAt | classfile/src/main/kotlin/org/tinygears/bat/classfile/constant/StringConstant.kt:44-51 | a written string index reads back as the same string constant |
| Constants.ReadNameAndTypeInfoAt | classfile/src/main/kotlin/org/tinygears/bat/classfile/constant/NameAndTypeConstant.kt:57-66 | both written indices read back, in order |
| Constants.ReadMethodTypeInfoAt | classfile/src/main/kotlin/org/tinygears/bat/classfile/constant/MethodTypeConstant.kt:49-56 | a written descriptor index reads back |
| Constants.ReadPackageInfoAt | classfile/src/main/kotlin/org/tinygears/bat/classfile/constant/PackageConstant.kt:49-56 | a written name index reads back |
| Constants.ReadFieldrefInfoAt | classfile/src/main/kotlin/org/tinygears/bat/classfile/constant/RefConstant.kt:58-67 | a field reference's class and name-and-type indices read back |
| Constants.ReadMethodrefInfoAt | classfile/src/main/kotlin/org/tinygears/bat/classfile/constant/RefConstant.kt:58-67 | a method reference's indices read back |
| Constants.ReadInterfaceMethodrefInfoAt | classfile/src/main/kotlin/org/tinygears/bat/classfile/constant/RefConstant.kt:58-67 | an interface-method reference's indices read back |
| Constants.ReadDynamicInfoAt | classfile/src/main/kotlin/org/tinygears/bat/classfile/constant/BootstrapRefConstant.kt:51-61 | a dynamic constant's bootstrap and name-and-type indices read back |
| Constants.ReadInvokeDynamicInfoAt | classfile/src/main/kotlin/org/tinygears/bat/classfile/constant/BootstrapRefConstant.kt:51-61 | an invoke-dynamic constant's indices read back |
| ConstantReferences.GetString | classfile/src/main/kotlin/org/tinygears/bat/classfile/constant/StringConstant.kt:39-42 | a string lookup succeeds exactly on a UTF-8 entry and gives its text |
| ConstantReferences.GetNameAndType | classfile/src/main/kotlin/org/tinygears/bat/classfile/constant/RefConstant.kt:45-47 | the lookup succeeds exactly on a name-and-type entry |
| ConstantReferences.GetClassName | classfile/src/main/kotlin/org/tinygears/bat/classfile/constant/RefConstant.kt:41-43 | a class name resolves only through a class entry whose name index is a UTF-8 entry |
| ConstantReferences.MemberName | classfile/src/main/kotlin/org/tinygears/bat/classfile/constant/RefConstant.kt:49-51 | a member name resolves through the name-and-type entry's name index |
| ConstantReferences.MemberDescriptor | classfile/src/main/kotlin/org/tinygears/bat/classfile/constant/BootstrapRefConstant.kt:43-49 | a descriptor resolves through the name-and-type entry's descriptor index |
| ConstantReferences.ResolutionSurvivesGrowth | classfile/src/main/kotlin/org/tinygears/bat/classfile/constant/ConstantPool.kt:58-69 | appending entries never changes the string an existing index resolves to |
| ConstantReferences.ReferencedVisitsOwnFields | classfile/src/main/kotlin/org/tinygears/bat/classfile/constant/RefConstant.kt:73-76 | a constant's referenced-constants walk visits exactly its own index fields, at most two |
| Frames.Frame.Copy | classfile/src/main/kotlin/org/tinygears/bat/classfile/evaluation/Frame.kt:70-72 | the copy is a fresh frame equal to this one that shares the liveness cells |
| Frames.Frame.Pop | classfile/src/main/kotlin/org/tinygears/bat/classfile/evaluation/Frame.kt:74-76 | pop succeeds exactly on a non-empty stack and removes and returns the top |
| Frames.Frame.Peek | classfile/src/main/kotlin/org/tinygears/bat/classfile/evaluation/Frame.kt:78-80 | peek succeeds exactly on a non-empty stack and returns the top |
| Frames.Frame.PopCount | classfile/src/main/kotlin/org/tinygears/bat/classfile/evaluation/Frame.kt:82-86 | popping n values succeeds exactly when at least n are there and leaves the rest; on failure the stack has been emptied, as the loop does |
| Frames.Frame.Push | classfile/src/main/kotlin/org/tinygears/bat/classfile/evaluation/Frame.kt:88-90 | push appends the value to the stack and changes nothing else |
| Frames.Frame.ClearStack | classfile/src/main/kotlin/org/tinygears/bat/classfile/evaluation/Frame.kt:92-94 | the stack is emptied and the variables and cells are kept |
| Frames.Frame.IsAlive | classfile/src/main/kotlin/org/tinygears/bat/classfile/evaluation/Frame.kt:96-98 | the flag of the slot's cell, failing out of range |
| Frames.Frame.Load | classfile/src/main/kotlin/org/tinygears/bat/classfile/evaluation/Frame.kt:100-104 | load fails on a missing or top slot and otherwise returns the slot's value |
| Frames.Frame.Store | classfile/src/main/kotlin/org/tinygears/bat/classfile/evaluation/Frame.kt:106-111 | store pads the variables with top up to the value's last slot and writes the value, as `FrameStates.Store`. A negative index fails after padding |
| Frames.Frame.VariableRead | classfile/src/main/kotlin/org/tinygears/bat/classfile/evaluation/Frame.kt:113-115 | the slot's cell becomes alive and nothing else changes |
| Frames.Frame.ResetVariableLiveness | classfile/src/main/kotlin/org/tinygears/bat/classfile/evaluation/Frame.kt:117-119 | the slot gets a fresh dead cell, which stops sharing with copies, and the other slots keep theirs |
| Frames.Frame.ResetAllLiveness | classfile/src/main/kotlin/org/tinygears/bat/classfile/evaluation/Frame.kt:121-125 | every slot gets a fresh cell with the same flag |
| Frames.Frame.MergeLiveness | classfile/src/main/kotlin/org/tinygears/bat/classfile/evaluation/Frame.kt:127-133 | each cell becomes alive if it was, or if the other frame's cell at that slot was; no flag falls |
| Frames.Frame.VariableWritten | classfile/src/main/kotlin/org/tinygears/bat/classfile/evaluation/Frame.kt:135-140 | the flags are padded to the value's last slot, and the written slot gets a fresh dead cell |
| Frames.Frame.EnsureVariableCapacity | classfile/src/main/kotlin/org/tinygears/bat/classfile/evaluation/Frame.kt:142-146 | variables are padded with top up to and including the capacity index |
| Frames.Frame.EnsureAliveCapacity | classfile/src/main/kotlin/org/tinygears/bat/classfile/evaluation/Frame.kt:148-152 | liveness is padded with fresh dead cells, keeping the existing ones |
| Frames.Frame.ReferenceInitialized | classfile/src/main/kotlin/org/tinygears/bat/classfile/evaluation/Frame.kt:154-166 | every occurrence of the reference in the variables and on the stack is replaced by the initialized one |
| Frames.Frame.VariableCount | classfile/src/main/kotlin/org/tinygears/bat/classfile/evaluation/Frame.kt:44-54 | the loop counts logical variables, stepping over the second slot of a long or double |
| Frames.Frame.AliveVariableCount | classfile/src/main/kotlin/org/tinygears/bat/classfile/evaluation/Frame.kt:56-68 | the loop's count is the alive count of the logical variables, failing where the source indexes past the flags |
| Frames.AliveCountBounds | classfile/src/main/kotlin/org/tinygears/bat/classfile/evaluation/Frame.kt:56-68 | the alive count succeeds exactly when every logical slot has a flag, is at most the variable count, and equals it when all flags are set |
| Frames.Frame.Empty | classfile/src/main/kotlin/org/tinygears/bat/classfile/evaluation/Frame.kt:193-195 | an empty frame has no variables, stack or cells |
| Frames.Frame.Of | classfile/src/main/kotlin/org/tinygears/bat/classfile/evaluation/Frame.kt:28-30 | the private constructor takes the variables, the stack and the cells as given |
| Frames.Frame.Equals | classfile/src/main/kotlin/org/tinygears/bat/classfile/evaluation/Frame.kt:168-176 | two frames are equal exactly when their variables and stacks are, whatever their liveness cells; a frame equals itself |
| Frames.ToVerificationTypeList | classfile/src/main/kotlin/org/tinygears/bat/classfile/evaluation/Frame.kt:199-207 | the loop lowers each logical value in order, and the pool only grows, keeping every existing index |
| Frames.LowerValue | classfile/src/main/kotlin/org/tinygears/bat/classfile/evaluation/Frame.kt:203-205 | one value is lowered as `toVerificationType`, and its class gets interned |
| Frames.LowerEach | classfile/src/main/kotlin/org/tinygears/bat/classfile/evaluation/Frame.kt:199-207 | lowering keeps length and lowers position by position |
| Frames.LowerEachStable | classfile/src/main/kotlin/org/tinygears/bat/classfile/evaluation/Frame.kt:199-207 | once a value's classes are interned, a growing pool lowers it the same way |
| FrameStates.Pop | classfile/src/main/kotlin/org/tinygears/bat/classfile/evaluation/Frame.kt:74-76 | pop succeeds exactly on a non-empty stack |
| FrameStates.Peek | classfile/src/main/kotlin/org/tinygears/bat/classfile/evaluation/Frame.kt:78-80 | peek succeeds exactly on a non-empty stack and sees what pop returns |
| FrameStates.PushThenPop | classfile/src/main/kotlin/org/tinygears/bat/classfile/evaluation/Frame.kt:74-90 | pop and peek after push give the pushed value back and the frame before |
| FrameStates.PopN | classfile/src/main/kotlin/org/tinygears/bat/classfile/evaluation/Frame.kt:82-86 | popping n succeeds exactly when n values are there and removes the top n |
| FrameStates.Load | classfile/src/main/kotlin/org/tinygears/bat/classfile/evaluation/Frame.kt:100-104 | load fails on a missing or top slot and otherwise returns it |
| FrameStates.Padded | classfile/src/main/kotlin/org/tinygears/bat/classfile/evaluation/Frame.kt:142-146 | padding keeps the prefix, reaches length capacity + 1 when shorter, and fills with top |
| FrameStates.StoreMeaning | classfile/src/main/kotlin/org/tinygears/bat/classfile/evaluation/Frame.kt:106-111 | after a store the slot holds the value. The variables are as long as the value's last slot needs. Other slots keep their values or are top, and the stack is untouched |
| FrameStates.StoreThenLoad | classfile/src/main/kotlin/org/tinygears/bat/classfile/evaluation/Frame.kt:100-111 | loading a slot just stored returns the stored value |
| FrameStates.Replace | classfile/src/main/kotlin/org/tinygears/bat/classfile/evaluation/Frame.kt:154-166 | replacement keeps length and replaces exactly the elements equal to the reference |
| FrameStates.ReferenceInitializedRemoves | classfile/src/main/kotlin/org/tinygears/bat/classfile/evaluation/Frame.kt:154-166 | after initialization the uninitialized reference occurs nowhere in the frame |
| FrameStates.SlotCountPush | classfile/src/main/kotlin/org/tinygears/bat/classfile/evaluation/Frame.kt:38-39 | the stack size grows by the pushed value's operand size |
| FrameStates.SlotCountBounds | classfile/src/main/kotlin/org/tinygears/bat/classfile/evaluation/Frame.kt:38-39 | the slot size is between the value count and twice it. It is 0 only when empty, and 1 only for one category-1 value |
| FrameStates.LogicalOfCategory1 | classfile/src/main/kotlin/org/tinygears/bat/classfile/evaluation/Frame.kt:44-54 | without category-2 values, the logical walk visits every element |
| FrameStates.LogicalLength | classfile/src/main/kotlin/org/tinygears/bat/classfile/evaluation/Frame.kt:44-54 | the logical walk visits no more elements than there are |
| VariableTypes.OfMeaning | classfile/src/main/kotlin/org/tinygears/bat/classfile/evaluation/VariableType.kt:39-57 | `of` fails only on void. Sub-int types map to integer, long and double are category 2, and reference types map to themselves |
| VariableTypes.Equals | classfile/src/main/kotlin/org/tinygears/bat/classfile/evaluation/VariableType.kt:195-264 | the corrected `equals`, compared kind by kind (same kind and class type, plus the same offset for uninitialized types), is exactly structural equality. A reference type never equals an uninitialized one |
| VariableTypes.EqualsAsWrittenFails | classfile/src/main/kotlin/org/tinygears/bat/classfile/evaluation/VariableType.kt:225-231 | comparing two distinct `UninitializedThisType` instances fails, because the cast is to the wrong class |
| VariableTypes.EqualsAsWrittenStructural | classfile/src/main/kotlin/org/tinygears/bat/classfile/evaluation/VariableType.kt:225-231 | outside that case, `equals` as written gives the corrected `Equals` |
| VariableTypes.ToVerificationTypeSeparates | classfile/src/main/kotlin/org/tinygears/bat/classfile/evaluation/VariableType.kt:191-193 | two reference types lower to the same verification type exactly when they name the same class |
| VariableTypes.ClassIndexStable | classfile/src/main/kotlin/org/tinygears/bat/classfile/evaluation/VariableType.kt:191-193 | a class index found once stays the same as the pool grows |
| Values.ToVerificationType | classfile/src/main/kotlin/org/tinygears/bat/classfile/evaluation/value/UninitializedReferenceValue.kt:30-39 | an uninitialized reference lowers to uninitialized-this exactly when its offset is negative, and otherwise to uninitialized at its offset |
| Values.AbstractAgrees | classfile/src/main/kotlin/org/tinygears/bat/classfile/evaluation/VariableType.kt:39-57 | abstracting values to variable types commutes with creating them from a type and with lowering, and keeps category and reference-ness |
| FrameUpdates.ValueFor | classfile/src/main/kotlin/org/tinygears/bat/classfile/evaluation/CodeAnalyzer.kt:796-813 | creating a value for a type fails only on void. Sub-int types give integer, and the others give their own kind |
| FrameUpdates.Update | classfile/src/main/kotlin/org/tinygears/bat/classfile/evaluation/CodeAnalyzer.kt:215-794 | only a load or store and an `<init>` call can change the locals, and an instruction without a rule fails |
| FrameUpdates.UpdateAsWritten | classfile/src/main/kotlin/org/tinygears/bat/classfile/verifier/CodeAnalyzer.kt:201-780 | as written, the same holds for the locals, `fneg` always fails and `dup_x2` adds exactly one value |
| FrameUpdates.UpdateStackEffect | classfile/src/main/kotlin/org/tinygears/bat/classfile/evaluation/CodeAnalyzer.kt:215-794 | every rule with a fixed stack effect fails on underflow. On success it pops and pushes exactly chapter 6's counts, keeps the stack below them, and keeps the variables unless it is a variable instruction |
| FrameUpdates.ReplaceStackEffect | classfile/src/main/kotlin/org/tinygears/bat/classfile/evaluation/CodeAnalyzer.kt:634-764 | conversions, comparisons and arithmetic replace the top n values by one result |
| FrameUpdates.ArrayStackEffect | classfile/src/main/kotlin/org/tinygears/bat/classfile/evaluation/CodeAnalyzer.kt:398-448 | `arraylength` pops one, loads pop two and push one, stores pop three |
| FrameUpdates.CallStackEffect | classfile/src/main/kotlin/org/tinygears/bat/classfile/evaluation/CodeAnalyzer.kt:542-600 | a call pops its arguments and pushes a result unless it returns void |
| FrameUpdates.MethodStackEffect | classfile/src/main/kotlin/org/tinygears/bat/classfile/evaluation/CodeAnalyzer.kt:542-570 | an invoke other than an initializer pops the parameters plus a receiver unless static |
| FrameUpdates.StackUpdateExact | classfile/src/main/kotlin/org/tinygears/bat/classfile/evaluation/CodeAnalyzer.kt:243-333 | on a legal stack, each pop, dup and swap rule does to the slot view what chapter 6 says, keeping the variables |
| StackShuffles.Shuffle | classfile/src/main/kotlin/org/tinygears/bat/classfile/evaluation/CodeAnalyzer.kt:243-333 | `dup2_x2` has no rule and fails |
| StackShuffles.DupX2AsWritten | classfile/src/main/kotlin/org/tinygears/bat/classfile/evaluation/CodeAnalyzer.kt:274-290 | as written, `dup_x2` succeeds on three values, or on two with a category-2 top. It inserts a copy of the top two deep when the top is category 2 and three deep otherwise |
| StackShuffles.ShuffleMatchesWords | classfile/src/main/kotlin/org/tinygears/bat/classfile/evaluation/CodeAnalyzer.kt:243-333 | on a legal stack, every shuffle on values is the chapter 6 shuffle on slots |
| StackShuffles.DupX2AsWrittenMisplaces | classfile/src/main/kotlin/org/tinygears/bat/classfile/evaluation/CodeAnalyzer.kt:274-290 | for the stack int, long, float, `dup_x2` as written inserts the copy below the int rather than below the long |
| FrameUpdates.AthrowKeepsTop | classfile/src/main/kotlin/org/tinygears/bat/classfile/verifier/CodeAnalyzer.kt:214-217 | `athrow` needs a value and leaves only it on the stack |
| FrameUpdates.NewPushesUninitialized | classfile/src/main/kotlin/org/tinygears/bat/classfile/evaluation/CodeAnalyzer.kt:495-511 | `new` pushes an uninitialized reference tied to its own offset |
| FrameUpdates.InitializerCall | classfile/src/main/kotlin/org/tinygears/bat/classfile/evaluation/CodeAnalyzer.kt:542-570 | `invokespecial <init>` pops the arguments and initializes the receiver everywhere in the frame, failing on underflow or on a receiver that cannot be initialized |
| FrameUpdates.LoadPushesLocal | classfile/src/main/kotlin/org/tinygears/bat/classfile/verifier/CodeAnalyzer.kt:332-346 | a load succeeds exactly on a set slot and pushes its value |
| FrameUpdates.NoRuleFails | classfile/src/main/kotlin/org/tinygears/bat/classfile/verifier/CodeAnalyzer.kt:201-203 | instructions the analyzers have no rule for fail |
| FrameUpdates.LoadStringConstant | classfile/src/main/kotlin/org/tinygears/bat/classfile/verifier/CodeAnalyzer.kt:348-361 | `ldc` of a string constant pushes `java/lang/String` in the corrected rule, but an integer as written |
| FrameUpdates.FloatNegation | classfile/src/main/kotlin/org/tinygears/bat/classfile/verifier/CodeAnalyzer.kt:681-753 | `fneg` replaces a value by a float in the corrected rule, but fails as written |
| FrameUpdates.AsWrittenAgrees | classfile/src/main/kotlin/org/tinygears/bat/classfile/verifier/CodeAnalyzer.kt:201-780 | the update as written equals the corrected update for every instruction except `dup_x2`, `fneg` and `ldc` of a string or UTF-8 constant |
| AnalyzerDomains.UpdateAbstracts | classfile/src/main/kotlin/org/tinygears/bat/classfile/verifier/CodeAnalyzer.kt:201-780 | apart from `aaload` and `<init>`, the verifier rule on abstracted frames is the abstraction of the evaluation rule |
| AnalyzerDomains.ArrayLoadAbstracts | classfile/src/main/kotlin/org/tinygears/bat/classfile/verifier/CodeAnalyzer.kt:403-409 | `aaload` agrees whenever the verifier succeeds, and the verifier alone rejects an uninitialized array reference |
| AnalyzerDomains.EvalInitialize | classfile/src/main/kotlin/org/tinygears/bat/classfile/evaluation/CodeAnalyzer.kt:542-570 | the evaluation initializes exactly reference receivers, replacing them by an initialized reference of the same type |
| AnalyzerDomains.EvalComponent | classfile/src/main/kotlin/org/tinygears/bat/classfile/evaluation/CodeAnalyzer.kt:417-423 | `aaload` finds a component exactly on a reference, initialized or not, to an array type, and the component is that array type's element type |
| AnalyzerDomains.VerifierComponent | classfile/src/main/kotlin/org/tinygears/bat/classfile/verifier/CodeAnalyzer.kt:403-409 | the verifier finds a component exactly on a Java reference to an array type |
| AnalyzerDomains.ValueForInstances | classfile/src/main/kotlin/org/tinygears/bat/classfile/evaluation/CodeAnalyzer.kt:796-813 | the generic value creation is `createValueFor` in the evaluation and `VariableType.of` in the verifier |
| AnalyzerDomains.StoreAbstracts | classfile/src/main/kotlin/org/tinygears/bat/classfile/evaluation/Frame.kt:106-111 | storing commutes with abstraction |
| AnalyzerDomains.ShuffleAbstracts | classfile/src/main/kotlin/org/tinygears/bat/classfile/verifier/CodeAnalyzer.kt:228-318 | the stack shuffles commute with abstraction |
| Instructions.Successors | classfile/src/main/kotlin/org/tinygears/bat/classfile/evaluation/CodeAnalyzer.kt:819-852 | `goto` has its target, other branches the next instruction and the target, a switch its default first and then each case in order, all as branch targets, and the rest none |
| Instructions.CaseSuccessors | classfile/src/main/kotlin/org/tinygears/bat/classfile/evaluation/CodeAnalyzer.kt:824-830 | each case's offset is relative to the switch and is a branch target |
| Instructions.CaughtType | classfile/src/main/kotlin/org/tinygears/bat/classfile/evaluation/CodeAnalyzer.kt:119-123 | catch type 0 means `java/lang/Throwable`; otherwise the named class |
| CodeAnalyzers.HandlerFrame | classfile/src/main/kotlin/org/tinygears/bat/classfile/evaluation/CodeAnalyzer.kt:110-133 | a handler starts with the protected block's variables and only the caught exception on the stack |
| CodeAnalyzers.Analyzer.constructor | classfile/src/main/kotlin/org/tinygears/bat/classfile/evaluation/CodeAnalyzer.kt:59-73 | `visitCode` allocates fresh arrays, none of them evaluated, flagged or framed, and an empty queue |
| CodeAnalyzers.Analyzer.SetStatusFlag | classfile/src/main/kotlin/org/tinygears/bat/classfile/evaluation/CodeAnalyzer.kt:909-911 | ors the flag into one offset's status and changes no other |
| CodeAnalyzers.Analyzer.EnqueueBasicBlock | classfile/src/main/kotlin/org/tinygears/bat/classfile/evaluation/CodeAnalyzer.kt:141-144 | flags a block entry and appends the block with its frame |
| CodeAnalyzers.Analyzer.EnqueueBranchTarget | classfile/src/main/kotlin/org/tinygears/bat/classfile/evaluation/CodeAnalyzer.kt:135-139 | as a basic block, also flagged as a branch target |
| CodeAnalyzers.Analyzer.EnqueueExceptionHandler | classfile/src/main/kotlin/org/tinygears/bat/classfile/evaluation/CodeAnalyzer.kt:110-133 | flags the handler as a block entry and an exception handler and appends it |
| CodeAnalyzers.Analyzer.SetupInitialFrame | classfile/src/main/kotlin/org/tinygears/bat/classfile/evaluation/CodeAnalyzer.kt:146-178 | returns the initial frame of the method, failing on a void parameter |
| InitialFrames.InitialFrameLayout | classfile/src/main/kotlin/org/tinygears/bat/classfile/evaluation/CodeAnalyzer.kt:146-178 | the initial frame is the receiver unless static (uninitialized in a constructor), then each parameter, with a top after each long or double, and an empty stack |
| InitialFrames.StoreParametersAppends | classfile/src/main/kotlin/org/tinygears/bat/classfile/evaluation/CodeAnalyzer.kt:163-175 | the parameter loop appends the parameters' layout and succeeds exactly when every parameter has a value |
| InitialFrames.ParameterValues | classfile/src/main/kotlin/org/tinygears/bat/classfile/evaluation/CodeAnalyzer.kt:163-175 | one value per parameter, failing exactly on a void one |
| InitialFrames.LayoutIndex | classfile/src/main/kotlin/org/tinygears/bat/classfile/evaluation/CodeAnalyzer.kt:163-175 | each parameter sits at its computed index, a category-2 one followed by top |
| CodeAnalyzers.Analyzer.SetupFrame | classfile/src/main/kotlin/org/tinygears/bat/classfile/evaluation/CodeAnalyzer.kt:110-144 | a block's setup stores its frame. A handler's setup stores the handler frame built from the start frame, failing where the source's `!!` would |
| CodeAnalyzers.Analyzer.UpdateFrame | classfile/src/main/kotlin/org/tinygears/bat/classfile/evaluation/CodeAnalyzer.kt:189 | succeeds exactly when the frame before exists and the corrected update rule accepts it, and then the frame after is computed; no other offset changes |
| CodeAnalyzers.Analyzer.AnalyseBlock | classfile/src/main/kotlin/org/tinygears/bat/classfile/evaluation/CodeAnalyzer.kt:816-863 | the block analyser enqueues every successor with the frame after and flags it. A block exit is flagged |
| CodeAnalyzers.Analyzer.EnqueueSuccessor | classfile/src/main/kotlin/org/tinygears/bat/classfile/evaluation/CodeAnalyzer.kt:833-852 | one successor enqueued keeps the running enqueue invariant |
| CodeAnalyzers.Analyzer.EvaluateInstruction | classfile/src/main/kotlin/org/tinygears/bat/classfile/evaluation/CodeAnalyzer.kt:184-197 | marks the instruction evaluated, computes its frame after and analyses it, keeping the worklist invariant |
| CodeAnalyzers.Analyzer.EvaluateStep | classfile/src/main/kotlin/org/tinygears/bat/classfile/evaluation/CodeAnalyzer.kt:184-210 | after one instruction, either the block exits or the next instruction is in range and, if new, receives the frame after; every evaluated frame before keeps its source |
| CodeAnalyzers.Analyzer.FallThrough | classfile/src/main/kotlin/org/tinygears/bat/classfile/evaluation/CodeAnalyzer.kt:198-208 | an instruction that does not end the block passes its frame after to the next offset unless that one is evaluated, fails when the next offset is outside the code, and keeps every evaluated frame before |
| CodeAnalyzers.Analyzer.InstructionTraced | classfile/src/main/kotlin/org/tinygears/bat/classfile/evaluation/CodeAnalyzer.kt:184-197 | evaluating an instruction whose frame before is sourced keeps every frame sourced, and the successors it queues carry its frame after |
| CodeAnalyzers.Analyzer.FallThroughTraced | classfile/src/main/kotlin/org/tinygears/bat/classfile/evaluation/CodeAnalyzer.kt:202-208 | the frame handed to the next offset is the frame after an evaluated predecessor, so that offset's frame is sourced |
| CodeAnalyzers.Analyzer.SetupTraced | classfile/src/main/kotlin/org/tinygears/bat/classfile/evaluation/CodeAnalyzer.kt:87-91 | setting up a taken block gives it the frame an evaluated predecessor queued, or the initial frame at 0, and a taken handler the handler frame of its table entry |
| CodeAnalyzers.Analyzer.SeedTraced | classfile/src/main/kotlin/org/tinygears/bat/classfile/evaluation/CodeAnalyzer.kt:79-84 | every seeded queue entry is sourced: handlers from the table, and the block at 0 with the initial frame |
| CodeAnalyzers.Analyzer.BlockStep | classfile/src/main/kotlin/org/tinygears/bat/classfile/evaluation/CodeAnalyzer.kt:184-210 | one turn of the block loop keeps the block invariant and evaluates one more instruction |
| CodeAnalyzers.Analyzer.EvaluateBasicBlock | classfile/src/main/kotlin/org/tinygears/bat/classfile/evaluation/CodeAnalyzer.kt:180-213 | the block loop terminates, evaluates at least its first instruction and never changes an evaluated instruction's frame before |
| CodeAnalyzers.Analyzer.Seed | classfile/src/main/kotlin/org/tinygears/bat/classfile/evaluation/CodeAnalyzer.kt:75-84 | seeding succeeds exactly when the initial frame exists, the code is not empty and every handler is in range. The queue then holds the handlers in reverse table order, then the block at 0 with the initial frame |
| CodeAnalyzers.Analyzer.TakeNext | classfile/src/main/kotlin/org/tinygears/bat/classfile/evaluation/CodeAnalyzer.kt:86-93 | one turn of the queue loop takes the last item and either evaluates a new block or drops an evaluated one |
| CodeAnalyzers.Analyzer.Drain | classfile/src/main/kotlin/org/tinygears/bat/classfile/evaluation/CodeAnalyzer.kt:86-94 | the queue loop ends with an empty queue, with offset 0 evaluated from the initial frame and every evaluated frame before sourced: the initial frame at 0, the frame after an evaluated offset that continues to it, or a handler frame built from an evaluated protected offset |
| CodeAnalyzers.Analyzer.Completed | classfile/src/main/kotlin/org/tinygears/bat/classfile/evaluation/CodeAnalyzer.kt:86-94 | with the queue empty, every evaluated instruction has its frame after, its successors evaluated and flagged, and its exit flag |
| CodeAnalyzers.Analyzer.EdgeEvaluated | classfile/src/main/kotlin/org/tinygears/bat/classfile/evaluation/CodeAnalyzer.kt:86-94 | every control-flow edge out of an evaluated instruction leads to an evaluated one |
| CodeAnalyzers.Analyzer.PathEvaluated | classfile/src/main/kotlin/org/tinygears/bat/classfile/evaluation/CodeAnalyzer.kt:75-95 | every instruction reachable from offset 0 or a handler along control-flow edges has been evaluated |
| CodeAnalyzers.Analyzer.EvaluateFrames | classfile/src/main/kotlin/org/tinygears/bat/classfile/evaluation/CodeAnalyzer.kt:75-95 | on success the analysis is complete: initial frame at 0, handlers evaluated and flagged, every reachable instruction evaluated with its frames computed by the corrected rule, and every frame before sourced from the initial frame, an evaluated predecessor's frame after or a handler frame |
| CodeAnalyzers.Analyzer.BranchTargetsExactly | classfile/src/main/kotlin/org/tinygears/bat/classfile/verifier/CodeAnalyzer.kt:90-99 | the processor loop meets exactly the evaluated branch targets, in increasing offset order |
| EvaluationAnalyzer.AnalyzeCode | classfile/src/main/kotlin/org/tinygears/bat/classfile/evaluation/CodeAnalyzer.kt:59-94 | the evaluation analyzer works on values, seeds a constructor with uninitialized-this at offset -1 and, on success, has evaluated the method with the corrected rule: every reachable offset evaluated, each frame after computed from the frame before, and each frame before sourced from the initial frame, an evaluated predecessor or a handler |
| EvaluationAnalyzer.VisitCode | classfile/src/main/kotlin/org/tinygears/bat/classfile/evaluation/CodeAnalyzer.kt:59-107 | after the queue loop, the processor loop leaves the local variable size computer with the largest variable size of any evaluated frame after |
| EvaluationAnalyzer.RunProcessors | classfile/src/main/kotlin/org/tinygears/bat/classfile/evaluation/CodeAnalyzer.kt:97-106 | the processor loop over the evaluated offsets feeds every frame after to the computer |
| EvaluationAnalyzer.LocalVariableSizeComputer.constructor | classfile/src/main/kotlin/org/tinygears/bat/classfile/editor/LocalVariableSizeComputer.kt:26-28 | the size starts at 0 |
| EvaluationAnalyzer.LocalVariableSizeComputer.HandleInstruction | classfile/src/main/kotlin/org/tinygears/bat/classfile/editor/LocalVariableSizeComputer.kt:30-32 | the size becomes the larger of itself and the frame after's variable size |
| EvaluationAnalyzer.MaxVariableSizeIsMax | classfile/src/main/kotlin/org/tinygears/bat/classfile/editor/LocalVariableSizeComputer.kt:30-32 | the computed size bounds every evaluated frame after and is reached by one, or is 0 |
| EvaluationAnalyzer.BranchEdges | classfile/src/main/kotlin/org/tinygears/bat/classfile/evaluation/CodeAnalyzer.kt:889-906 | one post-processing pair per successor, from the successor to the branch |
| EvaluationAnalyzer.LivenessAnalyser.constructor | classfile/src/main/kotlin/org/tinygears/bat/classfile/evaluation/CodeAnalyzer.kt:865-866 | the post-processing list starts empty |
| EvaluationAnalyzer.LivenessAnalyser.VisitVariableInstruction | classfile/src/main/kotlin/org/tinygears/bat/classfile/evaluation/CodeAnalyzer.kt:877-887 | a load marks the slot alive before and resets it after. A store marks it written after. Other variable instructions change nothing. Frame contents are untouched |
| EvaluationAnalyzer.LivenessAnalyser.VisitBranchInstruction | classfile/src/main/kotlin/org/tinygears/bat/classfile/evaluation/CodeAnalyzer.kt:889-906 | appends a pair for each successor of the branch |
| EvaluationAnalyzer.LivenessAnalyser.MergeFrames | classfile/src/main/kotlin/org/tinygears/bat/classfile/evaluation/CodeAnalyzer.kt:868-873 | merging one pair raises the branch frame's flags to include the successor's, lowering none anywhere |
| EvaluationAnalyzer.LivenessAnalyser.MergeEdge | classfile/src/main/kotlin/org/tinygears/bat/classfile/evaluation/CodeAnalyzer.kt:868-873 | one turn of `finish` succeeds exactly when the successor's frame exists, as the source's `!!` needs |
| EvaluationAnalyzer.LivenessAnalyser.Finish | classfile/src/main/kotlin/org/tinygears/bat/classfile/evaluation/CodeAnalyzer.kt:868-873 | `finish` succeeds exactly when every pair's frames exist, and then every pair is merged; no flag ever falls |
| VerifierAnalyzer.AnalyzeCode | classfile/src/main/kotlin/org/tinygears/bat/classfile/verifier/CodeAnalyzer.kt:56-88 | the verifier analyzer works on variable types, seeds a constructor with `UninitializedThisType` and, on success, has evaluated the method with the corrected rule: every reachable offset evaluated, each frame after computed from the frame before, and each frame before sourced from the initial frame, an evaluated predecessor or a handler |
| VerifierAnalyzer.VisitCode | classfile/src/main/kotlin/org/tinygears/bat/classfile/verifier/CodeAnalyzer.kt:56-99 | after the analysis, the stack map computer has one frame per evaluated branch target, in order, describing the frame before each by the corrected choice, with non-negative deltas |
| VerifierAnalyzer.RunProcessors | classfile/src/main/kotlin/org/tinygears/bat/classfile/verifier/CodeAnalyzer.kt:90-99 | the processor loop hands every offset to the computer, which then covers all branch targets |
| VerifierAnalyzer.RunProcessorsOnFresh | classfile/src/main/kotlin/org/tinygears/bat/classfile/verifier/CodeAnalyzer.kt:90-99 | the processor loop leaves the analysis it reads unchanged |
| VerifierAnalyzer.HandOver | classfile/src/main/kotlin/org/tinygears/bat/classfile/verifier/CodeAnalyzer.kt:91-97 | one turn hands an evaluated offset to the computer and skips the others |
| VerifierAnalyzer.HandOverEvaluated | classfile/src/main/kotlin/org/tinygears/bat/classfile/verifier/CodeAnalyzer.kt:94-96 | an evaluated offset handed over keeps the computer's frames in step with the branch targets |
| StatusFlags.SetFlagKeeps | classfile/src/main/kotlin/org/tinygears/bat/classfile/evaluation/CodeAnalyzer.kt:909-911 | setting a flag keeps every bit already set and sets the flag's bits |
| StatusFlags.SetFlagLeast | classfile/src/main/kotlin/org/tinygears/bat/classfile/evaluation/CodeAnalyzer.kt:909-911 | the result is the least status containing both |
| StatusFlags.SetFlagSets | classfile/src/main/kotlin/org/tinygears/bat/classfile/evaluation/CodeAnalyzer.kt:909-915 | afterwards `isFlagSet` holds exactly for a non-zero flag |
| StatusFlags.SetFlagIdempotent | classfile/src/main/kotlin/org/tinygears/bat/classfile/evaluation/CodeAnalyzer.kt:909-911 | setting a flag twice is setting it once |
| StatusFlags.FlagsAreDistinctBits | classfile/src/main/kotlin/org/tinygears/bat/classfile/evaluation/CodeAnalyzer.kt:918-921 | none of the four flags includes another |
| StackMapFrames.SameFrameFor | classfile/src/main/kotlin/org/tinygears/bat/classfile/attribute/preverification/StackMapFrame.kt:27-33 | deltas up to 63 give a same frame and larger ones a same-frame-extended. Negative deltas fail |
| StackMapFrames.SameFrameOneStack | classfile/src/main/kotlin/org/tinygears/bat/classfile/attribute/preverification/StackMapFrame.kt:35-41 | the short form is used for deltas up to 63 and the extended form beyond, always with the one stack item |
| StackMapFrames.AppendFrameFor | classfile/src/main/kotlin/org/tinygears/bat/classfile/attribute/preverification/StackMapFrame.kt:43-51 | one to three more locals give an append frame holding the new suffix; otherwise a full frame with no stack |
| StackMapFrames.ChopFrameFor | classfile/src/main/kotlin/org/tinygears/bat/classfile/attribute/preverification/StackMapFrame.kt:53-59 | one to three chopped locals give a chop frame of that count; otherwise a full frame with no stack |
| StackMapFrames.AppendFrameMeaning | classfile/src/main/kotlin/org/tinygears/bat/classfile/attribute/preverification/StackMapFrame.kt:43-51 | applied to the last locals, the chosen frame yields the current locals and an empty stack, when the last locals are a prefix |
| StackMapFrames.ChopFrameMeaning | classfile/src/main/kotlin/org/tinygears/bat/classfile/attribute/preverification/StackMapFrame.kt:53-59 | the chosen frame yields the current locals when they are a prefix of the last |
| StackMapFrames.AppendFrameWithoutPrefix | classfile/src/main/kotlin/org/tinygears/bat/classfile/attribute/preverification/StackMapFrame.kt:43-51 | without that prefix check, last [int] and current [float, int] give an append frame meaning [int, int] |
| StackMapFrames.SameFrameOf | classfile/src/main/kotlin/org/tinygears/bat/classfile/attribute/preverification/StackMapFrame.kt:126-129 | succeeds exactly for deltas 0..63, with the delta as frame type |
| StackMapFrames.ChopFrameOf | classfile/src/main/kotlin/org/tinygears/bat/classfile/attribute/preverification/StackMapFrame.kt:172-176 | succeeds exactly for a non-negative delta and 1..3 chopped locals, which the type 251 - k encodes |
| StackMapFrames.SameFrameExtendedOf | classfile/src/main/kotlin/org/tinygears/bat/classfile/attribute/preverification/StackMapFrame.kt:216-219 | succeeds exactly for a non-negative delta |
| StackMapFrames.AppendFrameOf | classfile/src/main/kotlin/org/tinygears/bat/classfile/attribute/preverification/StackMapFrame.kt:289-293 | succeeds exactly for a non-negative delta and 1..3 locals, which it keeps |
| StackMapFrames.SameLocalsOneStackItemFrameOf | classfile/src/main/kotlin/org/tinygears/bat/classfile/attribute/preverification/StackMapFrame.kt:344-347 | succeeds exactly for deltas 0..63 and keeps the stack item |
| StackMapFrames.SameLocalsOneStackItemFrameExtendedOf | classfile/src/main/kotlin/org/tinygears/bat/classfile/attribute/preverification/StackMapFrame.kt:399-402 | succeeds exactly for a non-negative delta and keeps the stack item |
| StackMapFrames.FullFrameOf | classfile/src/main/kotlin/org/tinygears/bat/classfile/attribute/preverification/StackMapFrame.kt:466-469 | succeeds exactly for a non-negative delta and keeps locals and stack |
| StackMapFrames.KindPartition | classfile/src/main/kotlin/org/tinygears/bat/classfile/attribute/preverification/StackMapFrame.kt:483-497 | frame types 128..246 are rejected, and the other ranges map to their kinds |
| StackMapFrames.Create | classfile/src/main/kotlin/org/tinygears/bat/classfile/attribute/preverification/StackMapFrame.kt:473-497 | exactly the bytes 128 to 246 (and non-bytes) are rejected; an accepted byte gives a frame of that type within its variant's range |
| StackMapFrames.Read | classfile/src/main/kotlin/org/tinygears/bat/classfile/attribute/preverification/StackMapFrame.kt:86-93 | a frame read has the type byte that was read and lies in its variant's range; a reserved type byte is an error |
| StackMapFrames.Write | classfile/src/main/kotlin/org/tinygears/bat/classfile/attribute/preverification/StackMapFrame.kt:75-78 | the frame type comes first, as one byte, and for a frame in range it selects the frame's own variant when read back |
| StackMapFrames.CreateInRange | classfile/src/main/kotlin/org/tinygears/bat/classfile/attribute/preverification/StackMapFrame.kt:473-497 | every accepted type creates a frame of that type and kind whose `create` requirement holds |
| StackMapFrames.ContentSizeIsWrittenLength | classfile/src/main/kotlin/org/tinygears/bat/classfile/attribute/preverification/StackMapFrame.kt:75-78 | each kind's `contentSize` is the length of what `write` produces |
| StackMapFrames.ReadWritten | classfile/src/main/kotlin/org/tinygears/bat/classfile/attribute/preverification/StackMapFrame.kt:86-93 | round trip: a valid frame written between any bytes reads back as the same frame |
| StackMapFrames.ReadAt | classfile/src/main/kotlin/org/tinygears/bat/classfile/attribute/preverification/StackMapFrame.kt:86-93 | reading at a written frame gives it back and ends after it |
| StackMapFrames.ReadOneStackAt | classfile/src/main/kotlin/org/tinygears/bat/classfile/attribute/preverification/StackMapFrame.kt:316-322 | the one stack item reads back |
| StackMapFrames.ReadOneStackExtendedAt | classfile/src/main/kotlin/org/tinygears/bat/classfile/attribute/preverification/StackMapFrame.kt:371-379 | delta and stack item read back |
| StackMapFrames.ReadChopAt | classfile/src/main/kotlin/org/tinygears/bat/classfile/attribute/preverification/StackMapFrame.kt:150-156 | the delta reads back |
| StackMapFrames.ReadSameExtendedAt | classfile/src/main/kotlin/org/tinygears/bat/classfile/attribute/preverification/StackMapFrame.kt:194-200 | the delta reads back |
| StackMapFrames.ReadAppendAt | classfile/src/main/kotlin/org/tinygears/bat/classfile/attribute/preverification/StackMapFrame.kt:254-267 | delta and frame type minus 251 locals read back |
| StackMapFrames.ReadFullAt | classfile/src/main/kotlin/org/tinygears/bat/classfile/attribute/preverification/StackMapFrame.kt:430-440 | delta, locals list and stack list read back |
| StackMapFrames.ReadAppendFrameData | classfile/src/main/kotlin/org/tinygears/bat/classfile/attribute/preverification/StackMapFrame.kt:254-260 | the loop reads frame type minus 251 verification types after the delta |
| StackMapFrames.OfIsValid | classfile/src/main/kotlin/org/tinygears/bat/classfile/attribute/preverification/StackMapFrame.kt:289-293 | frames from the append, chop and full-frame factories fit their byte format |
| StackMapFrames.Apply | classfile/src/main/kotlin/org/tinygears/bat/classfile/attribute/preverification/StackMapFrame.kt:133-293 | only chopping more locals than there are fails. A chop frame keeps a prefix shorter by its chopped count, an append frame extends the locals by its own, a full frame gives its locals and stack, and the other frames keep the locals with a stack of their own items |
| VerificationTypes.ReadEntries | classfile/src/main/kotlin/org/tinygears/bat/classfile/attribute/preverification/StackMapFrame.kt:256-259 | the read loop decodes n verification types in order |
| VerificationTypes.DecodeListAt | classfile/src/main/kotlin/org/tinygears/bat/classfile/attribute/preverification/StackMapFrame.kt:430-440 | a counted list of verification types reads back |
| StackMapTables.StackMapTableComputer.constructor | classfile/src/main/kotlin/org/tinygears/bat/classfile/editor/StackMapTableComputer.kt:28-38 | the computer starts with no frames and no last pair, on the class file's pool |
| StackMapTables.StackMapTableComputer.HandleInstruction | classfile/src/main/kotlin/org/tinygears/bat/classfile/editor/StackMapTableComputer.kt:44-91 | offset 0 records the last pair. A non-target changes nothing else. A target without a last pair fails as `lateinit` does. Otherwise the frame chosen by the corrected rule (`ChooseFrame`, with the stack lowered per value) is appended, and the pair moves on when the delta is not negative |
| StackMapTables.StackMapTableComputer.AddFrame | classfile/src/main/kotlin/org/tinygears/bat/classfile/editor/StackMapTableComputer.kt:49-89 | the delta is the offset difference, minus one after the first frame. A negative one fails; otherwise the frame chosen by the corrected rule is appended |
| StackMapTables.StackMapTableComputer.ComputeFrame | classfile/src/main/kotlin/org/tinygears/bat/classfile/editor/StackMapTableComputer.kt:57-84 | the imperative choice, lowering through the editor, is the corrected `ChooseFrame` on the grown pool, with the stack lowered per value |
| StackMapTables.StackMapTableComputer.LowerType | classfile/src/main/kotlin/org/tinygears/bat/classfile/editor/StackMapTableComputer.kt:73 | one type is lowered, interning a class only for a Java reference |
| StackMapTables.StackMapTableComputer.LowerList | classfile/src/main/kotlin/org/tinygears/bat/classfile/editor/StackMapTableComputer.kt:62-63 | the variables are lowered per logical entry |
| StackMapTables.StackMapTableComputer.LowerStack | classfile/src/main/kotlin/org/tinygears/bat/classfile/editor/StackMapTableComputer.kt:83 | corrected: the stack is lowered one entry per value |
| StackMapTables.ChooseFrame | classfile/src/main/kotlin/org/tinygears/bat/classfile/editor/StackMapTableComputer.kt:57-84 | corrected choice: fails exactly on a negative delta and otherwise keeps the delta with an in-range frame type |
| StackMapTables.ChooseFrameDescribes | classfile/src/main/kotlin/org/tinygears/bat/classfile/editor/StackMapTableComputer.kt:57-84 | applied to the last frame's locals, the chosen frame yields exactly the current locals and stack |
| StackMapTables.ChooseFrameAsWritten | classfile/src/main/kotlin/org/tinygears/bat/classfile/editor/StackMapTableComputer.kt:57-84 | the choice as written succeeds for every non-negative delta and keeps it |
| StackMapTables.AsWrittenAgrees | classfile/src/main/kotlin/org/tinygears/bat/classfile/editor/StackMapTableComputer.kt:57-84 | without category-2 values, and with one list of locals a prefix of the other, the choice as written is the corrected one |
| StackMapTables.ChopCountAsWritten | classfile/src/main/kotlin/org/tinygears/bat/classfile/editor/StackMapTableComputer.kt:65-67 | from [int, long] to [int], the slot difference chops two locals and yields [] |
| StackMapTables.AppendPrefixAsWritten | classfile/src/main/kotlin/org/tinygears/bat/classfile/editor/StackMapTableComputer.kt:60-64 | from [int] to [float, int], an append frame yields [int, int] |
| StackMapTables.StackTypesAsWritten | classfile/src/main/kotlin/org/tinygears/bat/classfile/editor/StackMapTableComputer.kt:81-84 | the stack [long, int] is written as [long] |
| StackMapTables.DeltaAt | classfile/src/main/kotlin/org/tinygears/bat/classfile/editor/StackMapTableComputer.kt:55 | the first delta is the first offset, and each later one is the gap minus one |
| StackMapTables.DeltasNonnegative | classfile/src/main/kotlin/org/tinygears/bat/classfile/editor/StackMapTableComputer.kt:55 | all deltas are non-negative exactly when the offsets start at 0 or more and strictly increase |
| StackMapTables.ChainStep | classfile/src/main/kotlin/org/tinygears/bat/classfile/editor/StackMapTableComputer.kt:44-91 | each added frame extends both the delta chain and the described frames |
| StackMapTables.ChainMeaning | classfile/src/main/kotlin/org/tinygears/bat/classfile/editor/StackMapTableComputer.kt:44-91 | each frame in the list, applied to the previous described locals, yields the described frame's locals and stack |
| StackMapTables.ChooseFrameStable | classfile/src/main/kotlin/org/tinygears/bat/classfile/editor/StackMapTableComputer.kt:32 | once its types are interned, a growing pool chooses the same frame |
| ExceptionsAttributes.Get | classfile/src/main/kotlin/org/tinygears/bat/classfile/attribute/ExceptionsAttribute.kt:49-51 | indexing succeeds exactly in range and gives that class index |
| ExceptionsAttributes.DataSizeIsWrittenLength | classfile/src/main/kotlin/org/tinygears/bat/classfile/attribute/ExceptionsAttribute.kt:43-44 | `dataSize` is the length of what `writeAttributeData` produces |
| ExceptionsAttributes.ReadDataAt | classfile/src/main/kotlin/org/tinygears/bat/classfile/attribute/ExceptionsAttribute.kt:61-69 | round trip: the written index array reads back as the same attribute |
| ExceptionsAttributes.ExceptionClassNames | classfile/src/main/kotlin/org/tinygears/bat/classfile/attribute/ExceptionsAttribute.kt:57-59 | succeeds exactly when every index names a class, and gives those names in order |
| ExceptionsAttributes.ExceptionClassConstantsAccept | classfile/src/main/kotlin/org/tinygears/bat/classfile/attribute/ExceptionsAttribute.kt:75-79 | visits each index's constant in order, failing where `constantAccept` would |
| ExceptionsAttributes.ReferencedConstants | classfile/src/main/kotlin/org/tinygears/bat/classfile/attribute/ExceptionsAttribute.kt:81-87 | one class-constant visit per exception index, in order |
| ModuleEntries.ToModule | classfile/src/main/kotlin/org/tinygears/bat/classfile/attribute/module/ExportsEntry.kt:52-54 | indexing succeeds exactly in range |
| ModuleEntries.PackageEntrySizeIsWrittenLength | classfile/src/main/kotlin/org/tinygears/bat/classfile/attribute/module/ExportsEntry.kt:46-47 | `contentSize` is the written length |
| ModuleEntries.ReadPackageEntryAt | classfile/src/main/kotlin/org/tinygears/bat/classfile/attribute/module/ExportsEntry.kt:68-78 | round trip for exports and opens entries |
| ModuleEntries.PackageName | classfile/src/main/kotlin/org/tinygears/bat/classfile/attribute/module/ExportsEntry.kt:60-62 | the name resolves through the package constant's name index exactly when the index holds a package constant, and fails otherwise |
| ModuleEntries.PackageEntryReferences | classfile/src/main/kotlin/org/tinygears/bat/classfile/attribute/module/ExportsEntry.kt:103-109 | the walk visits the package, then each module, in order |
| ModuleEntries.ReadRequiresEntryAt | classfile/src/main/kotlin/org/tinygears/bat/classfile/attribute/module/RequiresEntry.kt:57-67 | the entry is six bytes and reads back |
| ModuleEntries.RequiresEntryReferences | classfile/src/main/kotlin/org/tinygears/bat/classfile/attribute/module/RequiresEntry.kt:69-74 | visits the module, and the version string exactly when its index is positive |
| ClassElementValues.ReadElementValueAt | classfile/src/main/kotlin/org/tinygears/bat/classfile/attribute/annotation/ClassElementValue.kt:35-53 | the element value, three bytes with its tag, reads back |
| ClassElementValues.TypeDescriptor | classfile/src/main/kotlin/org/tinygears/bat/classfile/attribute/annotation/ClassElementValue.kt:41-43 | the type resolves exactly through a UTF-8 entry |
| ClassElementValues.ReferencesAsWritten | classfile/src/main/kotlin/org/tinygears/bat/classfile/attribute/annotation/ClassElementValue.kt:63-65 | as written: the walk visits the class index once, announcing a class constant |
| ClassElementValues.ReferencesAsWrittenMistyped | classfile/src/main/kotlin/org/tinygears/bat/classfile/attribute/annotation/ClassElementValue.kt:63-65 | whenever the type resolves, the walk as written expects a different constant type than the one there |
| ClassElementValues.ReferencesAsWrittenExample | classfile/src/main/kotlin/org/tinygears/bat/classfile/attribute/annotation/ClassElementValue.kt:41-65 | with a UTF-8 descriptor at index 1, `getType` works and the walk expects a class constant there |
| ClassElementValues.References | classfile/src/main/kotlin/org/tinygears/bat/classfile/attribute/annotation/ClassElementValue.kt:63-65 | corrected: the walk visits exactly the class index |
| ClassElementValues.ReferencesTyped | classfile/src/main/kotlin/org/tinygears/bat/classfile/attribute/annotation/ClassElementValue.kt:41-65 | corrected: the walk expects the constant type `getType` reads |

## Left out

- Float and double constants, `addOrGetFloatConstantIndex` and `addOrGetDoubleConstantIndex` are not modelled: they need IEEE floating point. The analyzers' float and double values are kept as kinds.
- UTF-8 constants hold a Dafny string. Modified UTF-8 encoding is not modelled, so a UTF-8 constant has no byte round trip.
- `JvmInstruction` decoding, `getLength` and descriptor parsing are not modelled. The model takes the code as an array of optional (instruction, length) pairs and a method as its parameter types, class and flags. `Code` and the instruction set are reduced to the groups the rules distinguish.
- Logging and `toString` are left out as output only. `hashCode` is left out: equality is structural, which it agrees with.
- `Frame`'s liveness flags are `AtomicBoolean`s. They are modelled as heap cells shared between copies; atomicity is not modelled.
- `UninitializedReferenceValue` has identity equality, which is modelled as equality of type and offset. Each offset is evaluated once, so two values with equal type and offset come from one `new`.
- VerifierAnalyzer.AnalyzeCode: the verifier's `Frame` class is not part of this model, so its `referenceInitialized` rule is the `initialize` parameter of `AnalyzerDomains.VerifierDomain`, which the model leaves unconstrained. The verifier's frames are the value-level `FrameStates` over `VariableType`s, and nothing proved about the verifier depends on what an `<init>` call does to them.
- The `ValueFactory` interface becomes the constructors of `Values.Value`. The value classes behind it, other than `UninitializedReferenceValue`, are not part of this model. A null value is a value of its own, not a `ReferenceValue`, so `aaload` and `<init>` on it fail.
- `ClassConstant.kt`, `VerificationType.kt` and `ClassDataInput`/`ClassDataOutput` are not part of this model. The class constant is a variant of the model's `Constant`, laid out as in section 4.4.1 of the Java Virtual Machine Specification. Verification types have the tags and sizes of section 4.7.4. The byte readers are functions over byte sequences with a position.
- The `of` factories and `copyWith` of `IntegerConstant`, `LongConstant` and `Utf8Constant` accept every value. They are the datatype constructors and field updates of `Constant`, and their equality by value is datatype equality, so they need no member of their own.
- `MethodrefConstant` has only its structure here: its factory and encoding are those of the other references.
- The evaluation driver keeps its frames as values without liveness. The `resetVariableLiveness` call in the queue loop is modelled by `Frames.Frame.ResetAllLiveness`, but the driver does not call it.
- `getExportedToModuleNames`, `getOpensToModuleNames`, `getRequiredModuleName` and `getRequiredVersion` are not modelled: `ModuleConstant` and `ClassFile.getStringOrNull` are not part of this model.
- `dup2_x2` has no rule in either analyzer; the model fails on it as the source does.
- CodeAnalyzers.Analyzer.UpdateFrame: runs the corrected update rule `FrameUpdates.Update` (with `dup_x2`, `fneg` and `ldc` of a string fixed), not `FrameUpdates.UpdateAsWritten`; `FrameUpdates.AsWrittenAgrees` says where the two differ. `CodeAnalyzers.Analyzer.Computed`, and through it `EvaluateFrames` and both `AnalyzeCode`s, describe frames of the corrected rule.
- StackMapTables.StackMapTableComputer.ComputeFrame: runs the corrected choice `ChooseFrame` and the corrected `LowerStack`, not `ChooseFrameAsWritten` and `StackTypesAsWritten`; `StackMapTables.AsWrittenAgrees` says where the two choices agree.
- StackMapTables.StackMapTableComputer.AddFrame: appends the frame of the corrected choice, through `ComputeFrame`.
- StackMapTables.StackMapTableComputer.HandleInstruction: appends the frame of the corrected choice, through `AddFrame`.
- CodeAnalyzers.Analyzer.EvaluateFrames: promises completeness and provenance only on success. The source's failures (`TODO`, `error`, `!!`) become a `Fail` outcome with no further promise.
- ConstantPools.ConstantPool.GetConstantIndex: states that the index holds the constant only for a consistent pool. `read` does not rebuild the map, so a pool that has been read may have a stale map.
- ConstantPoolEditors.ConstantPoolEditor.AddOrGetInvokeDynamic: requires that no interned constant already has the new constant's identity. The source's constructor guarantees this by allocating a fresh object.
- Constants.ReadEntry: fails on a UTF-8 entry, whose modified UTF-8 info is not modelled. It gives every bootstrap constant it reads the one identity `instance`, where the source allocates a new object per entry.
- ConstantPools.ReadWrittenPool: the round trip is stated for pools without UTF-8 entries whose bootstrap constants all carry the reader's identity.
- 32-bit wrap-around is not modelled. Offsets, indices and counts are unbounded integers, and the byte formats require them to fit their fields.

## Findings

| source | as written | input that shows it | evidently intended | confidence | as-written member | corrected member |
|---|---|---|---|---|---|---|
| classfile/src/main/kotlin/org/tinygears/bat/classfile/evaluation/CodeAnalyzer.kt:274-290 | `dup_x2` picks its form from the category of the top value | stack int, long, float: the copy of the float goes below the int | pick the form from the second value, as chapter 6 does, giving int, float, long, float; the verifier has the same code | not executed; high | StackShuffles.DupX2AsWrittenMisplaces | StackShuffles.ShuffleMatchesWords |
| classfile/src/main/kotlin/org/tinygears/bat/classfile/verifier/CodeAnalyzer.kt:681-753 | the arithmetic rule has no `fneg` case and fails on it | any `fneg` | replace the top value by a float | not executed; high | FrameUpdates.FloatNegation | FrameUpdates.FloatNegation |
| classfile/src/main/kotlin/org/tinygears/bat/classfile/verifier/CodeAnalyzer.kt:348-361 | `ldc` tests for a UTF-8 constant, which `ldc` never loads | `ldc` of a string constant pushes an integer | push `java/lang/String` for a string constant; the evaluation has the same code | not executed; high | FrameUpdates.LoadStringConstant | FrameUpdates.LoadStringConstant |
| classfile/src/main/kotlin/org/tinygears/bat/classfile/evaluation/VariableType.kt:225-231 | `UninitializedThisType.equals` casts the other object to `JavaReferenceType` | two distinct `UninitializedThisType` instances for one class | compare the class types | not executed; high | VariableTypes.EqualsAsWrittenFails | VariableTypes.Equals |
| classfile/src/main/kotlin/org/tinygears/bat/classfile/editor/StackMapTableComputer.kt:65-67 | the chop count is the difference in variable slots | last [int, long], current [int]: two locals chopped | the difference in logical locals, as section 4.7.4 counts them | not executed; high | StackMapTables.ChopCountAsWritten | StackMapTables.ChooseFrameDescribes |
| classfile/src/main/kotlin/org/tinygears/bat/classfile/editor/StackMapTableComputer.kt:60-64 | append and chop frames are chosen by count alone, without checking that the shorter locals are a prefix | last [int], current [float, int] | fall back to a full frame when the prefix differs | not executed; high | StackMapTables.AppendPrefixAsWritten | StackMapTables.ChooseFrameDescribes |
| classfile/src/main/kotlin/org/tinygears/bat/classfile/editor/StackMapTableComputer.kt:81-84 | the stack is lowered with `toVerificationTypeList`, which steps by operand size, while a stack list holds one entry per value | stack [long, int] is written as [long] | lower each stack value | not executed; low (the verifier `Frame` is not part of this model) | StackMapTables.StackTypesAsWritten | StackMapTables.StackMapTableComputer.LowerStack |
| classfile/src/main/kotlin/org/tinygears/bat/classfile/attribute/annotation/ClassElementValue.kt:63-65 | the walk visits the class index as a class constant, while `getType` reads it as a UTF-8 descriptor | a class element value with a UTF-8 descriptor | visit it as a UTF-8 constant | not executed; medium | ClassElementValues.ReferencesAsWrittenMistyped | ClassElementValues.ReferencesTyped |
| classfile/src/main/kotlin/org/tinygears/bat/classfile/constant/editor/ConstantPoolEditor.kt:159-168 | the method handle always points at a method reference | `REF_getField` or `REF_invokeInterface` | point at a field reference or an interface-method reference as the kind requires, which the handle's own walk expects | not executed; medium | ConstantPoolEditors.MethodHandleAsWrittenWrongTarget | ConstantPoolEditors.ConstantPoolEditor.AddOrGetMethodHandle |
