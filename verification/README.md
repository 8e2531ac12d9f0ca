# Verified model of the native profiler's rewriting, signature and text code

The Dafny files model three parts of the native side of the .NET tracer and prove what they are for.

* **The CIL rewriter.** `ILRewriter` reads the code bytes of a method into a circular doubly-linked instruction list, lets
  clients insert instructions, and writes the list out again. Writing lays the list out, computes displacements, widens
  the short branches that no longer fit and starts over until nothing changes. On top of it stand the emitter
  `ILRewriterWrapper` and the two rewrites of the loader: a call put in front of an existing method, and a generated
  method that loads the managed assembly. Formats: ECMA-335 Partition II, sections 25.4.2, 25.4.3 and 25.4.6, and
  Partition III, section 1.7.
* **Signature blobs.** The recursive-descent parser of method signatures, the two printers of type names that walk the
  same bytes independently, and the rewrite of a method's local-variable signature. Formats: ECMA-335 Partition II,
  sections 23.2, 23.2.1, 23.2.6, 23.2.8, 23.2.12 and 23.2.13.
* **Unicode.** UTF-8, UTF-16 and UTF-32 transcoding (RFC 3629, section 3; RFC 2781, section 2) and the canonical ordering
  and composition loops of normalization (Unicode Standard, sections 3.11 and 3.12).

`dafny verify dfyconfig.toml` checks everything.

## How the model is laid out

Code that changes state is imperative Dafny: `Rewriter.ILRewriter`, `Wrapper.ILRewriterWrapper`,
`MethodSignature.FunctionMethodSignature` and `LocalSignature.CallTargetTokens` are classes with the source's fields,
loops are loops, and buffers and strings rewritten in place are arrays. Every such method is tied by its contract to a
function of values (`Assembler.Decode`, `Relaxation.Relax`, `Assembler.Encode`, `SigTypes.Parse`, `SignatureNames.Run`,
`CanonicalOrdering.Order`, `Composition.Composed`, ...), and the lemmas are about those functions.

| files | content |
|---|---|
| `Words`, `Opcodes`, `ILCode` | little-endian words, the opcode table, instruction lists as values |
| `Relaxation`, `Assembler`, `RoundTrip` | the widening fixpoint, the assembler and the disassembler, their round trips |
| `Instructions`, `ListViews`, `OffsetTable`, `StackPushes` | list nodes, the ring, what a ring of nodes denotes |
| `Layout`, `Fixup`, `Regions`, `Rewriter` | the two passes of `Export`, exception clauses, the class |
| `StackDepth` | why the tracked maximal stack is enough |
| `StackMachine`, `Emission`, `LoaderBody`, `Wrapper`, `GeneratedLoader` | the emitter and the generated method |
| `Execution`, `Loader` | runs of method bodies; the call put in front |
| `Compressed`, `SigTypes`, `MethodSignature` | compressed numbers, the type grammar, method signatures |
| `TypeNames`, `SignatureNames` | the two printers of type names |
| `LocalTypes`, `LocalSignature` | the full grammar of locals, the rewrite of the local-variable signature |
| `Utf`, `CanonicalOrdering`, `Composition` | transcoding and normalization |

## Results that say the code does less than one might expect

* An exception handler of length zero does not survive an insertion in front of it: the exported handler length wraps
  around (`Regions.EmptyHandlerLost`). Try blocks, filter code and all other handlers contain the same instructions after
  every run of insertions (`Regions.RegionsKept`), and an insertion in front of the handler leaves a clause inside the code
  exactly when the handler is not empty (`Regions.InsideExactly`).
* The 16-bit field of the header is enough for every body with a given tracked stack depth exactly when that depth is
  below 0x10000 (`StackDepth.HeaderExactly`).
* The name printer `GetSigTypeTokName` stops where the parser `ParseType` stops, whatever bytes follow the type, exactly
  when all one-byte types in it are among the sixteen the printer names (`TypeNames.WalkersAgree`).
* The guard against rewriting a local signature twice compares bytes: it refuses a signature exactly when the bytes of all
  locals together end in those of the state local (`LocalSignature.GuardReadsBytes`). A signature that was never rewritten
  is refused as well when its last local merely ends in them (`LocalSignature.FalseAlarm`), as arrays of the state type and
  generic instances with it as the last argument do (`LocalSignature.StateLastEnds`).
* For a method that returns by reference the rewrite goes through, but the new local-variable signature cannot be read:
  the type of the `CallTargetReturn<T>` local would have a by-reference argument (`LocalSignature.RefIntReturn`). For every
  return value the signature parser accepts, the new signature decodes to the old and the new locals exactly when the value
  is not by reference and all its one-byte types are types of the standard (`LocalSignature.ReturnDecodes`,
  `LocalSignature.RewriteDecodes`).
* The signature of a void method is rewritten even when `CallTargetReturn` cannot be defined in the module, and the local
  then has the nil type reference as its type, exactly in that case (`LocalSignature.VoidReturnNil`,
  `LocalSignature.VoidReturnNilInstance`).
* `utf8_check` accepts three-byte forms of surrogates, which do not survive the way through UTF-16
  (`Utf.Utf8ViaUtf16`, `Utf.LoneSurrogateLost`).
* `TryParseSignatureTypes` takes generic argument counts and variable numbers for one byte each and counts arguments by
  the number in the type's name; `SignatureNames.Scannable` spells out the types it can follow. The dimensions of an array
  of generic instances end up behind the first leaf of the type instead of behind the closing bracket
  (`SignatureNames.TypeRuns`, where `Floated` says what is named), so a type gets its name exactly when no array of generic
  instances occurs anywhere in it (`SignatureNames.NamedExactly`, and `SignatureNames.SignaturePrinted` for signatures).
* The angle brackets in the names of `TryParseSignatureTypes` balance for all inputs exactly when they do in the names the
  metadata gives (`SignatureNames.RunBalanced`).

## Model

| member | source | states |
|---|---|---|
| Words.LoadStore | shared/src/native-src/il_rewriter.cpp:240-258 | an unaligned store followed by a load gives the value back exactly when the width can hold it |
| Words.StoreLoad | shared/src/native-src/il_rewriter.cpp:447-462 | storing a loaded word reproduces its bytes |
| Words.LoadStoreMod32 | shared/src/native-src/il_rewriter.cpp:496-504 | a 32-bit displacement keeps its value modulo 2^32 |
| Opcodes.OperandOf | shared/src/native-src/il_rewriter.cpp:24-74 | the flag table: which opcodes take short targets, long targets and switch counts |
| Opcodes.Widen | shared/src/native-src/il_rewriter.cpp:511-529 | the long form of a short branch is a long branch the table knows |
| Opcodes.WidenFacts | shared/src/native-src/il_rewriter.cpp:511-529 | widening adds three bytes, pushes nothing and loses no information |
| ILCode.OffMonotone | shared/src/native-src/il_rewriter.cpp:427-476 | distinct positions get distinct offsets in list order |
| ILCode.OffBound | shared/src/native-src/il_rewriter.cpp:405-425 | a layout never needs more than ten bytes an instruction, so the range guard cannot fire |
| Relaxation.WidenMisfits | shared/src/native-src/il_rewriter.cpp:480-546 | one pass changes the list exactly when some short branch does not fit, and only by widening |
| Relaxation.WideningLowersShorts | shared/src/native-src/il_rewriter.cpp:412-546 | every repetition strictly lowers the number of short branches |
| Relaxation.WideningStretches | shared/src/native-src/il_rewriter.cpp:412-546 | widening never brings two positions closer |
| Relaxation.RelaxFits | shared/src/native-src/il_rewriter.cpp:412-546 | the loop ends with a list that differs by widening only and in which every short displacement fits a signed byte |
| Relaxation.RelaxIsLeast | shared/src/native-src/il_rewriter.cpp:412-546 | least fixpoint: every sufficient widening contains the set the loop chose |
| Relaxation.RelaxIdentity | shared/src/native-src/il_rewriter.cpp:544-545 | nothing is widened exactly when all short branches fit at once |
| Relaxation.RelaxKeepsWellFormed | shared/src/native-src/il_rewriter.cpp:412-546 | the loop keeps switch tables, operands and targets intact |
| RoundTrip.ScanExact | shared/src/native-src/il_rewriter.cpp:189-297 | the scan succeeds exactly on complete disassemblies, and the disassembly is unique |
| RoundTrip.ScannedIsAssembled | shared/src/native-src/il_rewriter.cpp:189-297 | complete disassemblies are exactly what the assembler writes |
| RoundTrip.DecodeEncode | shared/src/native-src/il_rewriter.cpp:260-307 | a well-formed list that fits survives assembling and disassembling unchanged, switch tables included |
| RoundTrip.EncodeDecode | shared/src/native-src/il_rewriter.cpp:189-310 | what import accepts is well formed, and re-encoding it gives the very bytes |
| RoundTrip.ExportAfterImport | shared/src/native-src/il_rewriter.cpp:404-546 | without edits the code bytes are reproduced exactly and no branch is widened |
| RoundTrip.ImportAfterExport | shared/src/native-src/il_rewriter.cpp:404-546 | importing an exported list gives the same list with the same target graph, up to the branches that were widened |
| Instructions.LinkBefore | shared/src/native-src/il_rewriter.cpp:378-386 | linking in front of a node keeps the ring and puts the node exactly there |
| Instructions.LinkAfter | shared/src/native-src/il_rewriter.cpp:388-396 | linking behind a node keeps the ring and puts the node exactly there |
| ListViews.InsertedIsSplice | shared/src/native-src/il_rewriter.cpp:378-396 | inserting a node is splicing an instruction: every branch still leads to its old target |
| ListViews.SpliceTwice | shared/src/native-src/il_rewriter_wrapper.cpp:104-142 | inserting two blocks one after the other in front of the same instruction is inserting them as one block, the branches of the first moved past the second |
| StackPushes.TotalInserted | shared/src/native-src/il_rewriter.cpp:398-400 | inserting an instruction anywhere adds exactly its own pushes to the total |
| StackPushes.WideningKeepsPushes | shared/src/native-src/il_rewriter.cpp:511-529 | widening leaves the total unchanged |
| Layout.LayInstr | shared/src/native-src/il_rewriter.cpp:427-476 | laying one instruction writes its opcode and operand and touches nothing before it |
| Layout.LayNode | shared/src/native-src/il_rewriter.cpp:419-477 | the node gets its offset and its bytes, the range guard does not fire, and no byte before them is touched |
| Layout.LayoutPass | shared/src/native-src/il_rewriter.cpp:413-478 | after the pass every node holds its offset and everything but the displacements is written |
| Fixup.FixNode | shared/src/native-src/il_rewriter.cpp:487-541 | one node: the displacement is written, or the opcode widened when it does not fit |
| Fixup.FixupPass | shared/src/native-src/il_rewriter.cpp:480-542 | the pass turns the list into its widening and asks for another round exactly when something did not fit |
| Regions.ClauseRoundTrip | shared/src/native-src/il_rewriter.cpp:322-358 | without edits every clause is written back exactly as it was read |
| Regions.EditsKeepOrder | shared/src/native-src/il_rewriter.cpp:378-396 | every run of insertions keeps the old nodes in their order |
| Regions.RegionsKept | shared/src/native-src/il_rewriter.cpp:605-623 | after any run of insertions the exported try block and filter code, and a handler that was not empty, contain exactly the same old instructions, blocks whose end wraps around included; a clause inside the code stays inside |
| Regions.EmptyHandlerLost | shared/src/native-src/il_rewriter.cpp:345-346 | for every clause with an empty handler, an insertion at the handler's start makes the exported length wrap around |
| Regions.InsideExactly | shared/src/native-src/il_rewriter.cpp:345-346 | an insertion at the handler's start leaves the clause inside the code if and only if the handler is not empty |
| Rewriter.ILRewriter.constructor | shared/src/native-src/il_rewriter.cpp:107-124 | a new rewriter holds an empty ring |
| Rewriter.ILRewriter.InitializeTiny | shared/src/native-src/il_rewriter.cpp:142-149 | an empty body with stack eight and a tiny header |
| Rewriter.ILRewriter.SetTkLocalVarSig | shared/src/native-src/il_rewriter.cpp:153-156 | local variables force the fat header |
| Rewriter.ILRewriter.InsertBefore | shared/src/native-src/il_rewriter.cpp:378-386 | the ring and the stack total stay valid and the node stands in front of the given one |
| Rewriter.ILRewriter.InsertAfter | shared/src/native-src/il_rewriter.cpp:388-396 | the ring and the stack total stay valid and the node stands behind the given one |
| Rewriter.ILRewriter.ReadInstr | shared/src/native-src/il_rewriter.cpp:201-292 | one round of the scan takes the instruction and its switch table, or fails exactly when the bytes are not code |
| Rewriter.ILRewriter.ReadSwitchArgs | shared/src/native-src/il_rewriter.cpp:265-285 | the entries of a switch table, counted from the end of the table |
| Rewriter.ILRewriter.ResolveTargets | shared/src/native-src/il_rewriter.cpp:299-307 | every offset becomes a pointer to the instruction there; it fails exactly when one has none |
| Rewriter.ILRewriter.ImportIL | shared/src/native-src/il_rewriter.cpp:189-310 | succeeds exactly on decodable bytes and leaves their decoding in the list |
| Rewriter.ILRewriter.ImportEH | shared/src/native-src/il_rewriter.cpp:312-358 | succeeds exactly when no table was read before and all offsets are those of instructions |
| Rewriter.ILRewriter.ExportCode | shared/src/native-src/il_rewriter.cpp:404-546 | produces the encoding of the relaxed list, inside the buffer |
| Rewriter.ILRewriter.ExportEH | shared/src/native-src/il_rewriter.cpp:605-623 | the clause table in terms of the final offsets |
| Rewriter.ILRewriter.Export | shared/src/native-src/il_rewriter.cpp:404-631 | the whole body: tiny or fat header, code, clauses; fails exactly for a tiny body of 64 bytes or more |
| Rewriter.ILRewriter.Import | shared/src/native-src/il_rewriter.cpp:167-187 | header fields, list and clauses denote the given body |
| StackDepth.CutLoops | shared/src/native-src/il_rewriter.cpp:398-400 | every path contains a simple path between the same ends |
| StackDepth.DepthBound | shared/src/native-src/il_rewriter.cpp:174-184 | initial value plus all pushes bounds the stack depth at every reachable instruction, loops included |
| StackDepth.HeaderExactly | shared/src/native-src/il_rewriter.cpp:587 | all consistent bodies with tracked value v stay within the low 16 bits of v, at every reachable instruction, if and only if v is below 0x10000 |
| Emission.LoadInt32Pushes | shared/src/native-src/il_rewriter_wrapper.cpp:31-50 | all three encodings push the value |
| Emission.LocalEncodings | shared/src/native-src/il_rewriter_wrapper.cpp:185-240 | the three encodings of an index agree, and name the local that was meant exactly for indices of 16 bits |
| Emission.ArgumentEncodings | shared/src/native-src/il_rewriter_wrapper.cpp:52-74 | the encoding names the argument that was meant exactly for indices of 16 bits, and always fits its operand |
| Emission.StringArrayRuns | shared/src/native-src/loader.cpp:1440-1474 | running the emitted code pushes one reference, to a new array holding exactly the strings in order |
| LoaderBody.ArgumentsRun | shared/src/native-src/loader.cpp:1326-1359 | null and the object array with both string arrays are on the stack |
| LoaderBody.MiddleRuns | shared/src/native-src/loader.cpp:1261-1369 | the whole middle part runs and leaves nothing on the stack |
| LoaderBody.BodyReturns | shared/src/native-src/loader.cpp:1244-1371 | the generated body reaches ret with an empty stack on both outcomes of its branch |
| Wrapper.ILRewriterWrapper.Insert | shared/src/native-src/il_rewriter_wrapper.cpp:270-275 | anywhere in the list: a new node goes in front of the position, which stays where it is, and every branch keeps its target, open ones included |
| Wrapper.ILRewriterWrapper.LoadInt32 | shared/src/native-src/il_rewriter_wrapper.cpp:31-50 | at any position, splices in the encoding chosen for the value; at the end of the list that is appending it |
| Wrapper.ILRewriterWrapper.LoadArgument | shared/src/native-src/il_rewriter_wrapper.cpp:52-74 | at any position, splices in the encoding chosen for the argument |
| Wrapper.ILRewriterWrapper.LoadLocal | shared/src/native-src/il_rewriter_wrapper.cpp:207-227 | at any position, splices in the encoding chosen for the local |
| Wrapper.ILRewriterWrapper.StLocal | shared/src/native-src/il_rewriter_wrapper.cpp:185-205 | at any position, splices in the encoding chosen for the local |
| Wrapper.ILRewriterWrapper.LoadLocalAddress | shared/src/native-src/il_rewriter_wrapper.cpp:229-240 | at any position, splices in the encoding chosen for the local |
| Wrapper.ILRewriterWrapper.CreateArray | shared/src/native-src/il_rewriter_wrapper.cpp:104-112 | at any position, splices in the size and newarr, in this order and next to each other |
| Wrapper.ILRewriterWrapper.CallMember | shared/src/native-src/il_rewriter_wrapper.cpp:121-128 | at any position, splices in call or callvirt and moves no branch |
| Wrapper.ILRewriterWrapper.BeginLoadValueIntoArray | shared/src/native-src/il_rewriter_wrapper.cpp:136-142 | at any position, splices in dup and the index, in this order and next to each other |
| Execution.PrefixedRuns | shared/src/native-src/loader.cpp:731-735 | with finally handlers run by leave, filter code, two-pass exception handling and nested handlers in the machine: a run behind one more instruction is that instruction once and then a run of the original, which never comes back to it |
| Loader.PrependedCode | shared/src/native-src/loader.cpp:715-742 | the exported code decodes to the call and the original instructions up to branch form, every edge one further |
| Loader.PrependedRuns | shared/src/native-src/loader.cpp:715-742 | every run of the exported code is one call followed by a run of the original |
| Loader.ClauseMoves | shared/src/native-src/il_rewriter.cpp:605-623 | behind the call every clause keeps its kind and class and protects, enters and filters the images of its instructions; its handler ends at the image of the old end, or still at offset 0 |
| Loader.EmitLoaderCallInMethod | shared/src/native-src/loader.cpp:715-742 | succeeds exactly on importable bodies and returns the rewritten body, header and clauses included |
| Loader.RewrittenRuns | shared/src/native-src/loader.cpp:715-742 | on any machine, every run of the rewritten method with its own clause table is one loader call and then a run of the original |
| GeneratedLoader.WriteAssembliesStringArray | shared/src/native-src/loader.cpp:1440-1474 | at any position, splices in the array construction, or what comes before the first string that is refused, and fails exactly then |
| GeneratedLoader.EmitOpenBody | shared/src/native-src/loader.cpp:1241-1371 | the emitted list is the body, with the branch still open |
| GeneratedLoader.AttachBranch | shared/src/native-src/loader.cpp:1371 | with the branch attached to ret the list is the body and can be exported |
| GeneratedLoader.BodyWellFormed | shared/src/native-src/loader.cpp:1244-1371 | the body is a well-formed list that needs no widening |
| GeneratedLoader.BodySurvivesExport | shared/src/native-src/loader.cpp:1373 | the exported bytes decode to exactly the body whose runs are known |
| GeneratedLoader.EmitLoaderMethod | shared/src/native-src/loader.cpp:1237-1373 | the generated method: fat header, given locals, the encoded body; fails exactly when a string is refused |
| Compressed.Compress | tracer/src/Datadog.Trace.ClrProfiler.Native/lib/coreclr/src/inc/cor.h:2242-2269 | encodes exactly the values up to 0x1FFFFFFF, in the shortest form |
| Compressed.NumExact | tracer/src/Datadog.Trace.ClrProfiler.Native/lib/coreclr/src/inc/cor.h:2016-2077 | a number is read exactly where its encoding stands |
| Compressed.ParseNumber | tracer/src/Datadog.Trace.ClrProfiler.Native/clr_helpers.cpp:1384-1432 | reads that number through the cursor and never passes the end |
| Compressed.CompressToken | tracer/src/Datadog.Trace.ClrProfiler.Native/lib/coreclr/src/inc/cor.h:2275-2308 | the coded index holds row and table, and exists exactly for rows that fit |
| SigTypes.Print | tracer/src/Datadog.Trace.ClrProfiler.Native/clr_helpers.cpp:1446-1454 | the encoding of a type begins with a structured tag exactly when the type has parts |
| SigTypes.ParseExact | tracer/src/Datadog.Trace.ClrProfiler.Native/clr_helpers.cpp:1455-1563 | the parser accepts exactly the printed types, with anything behind them |
| SigTypes.ParsePrinted | tracer/src/Datadog.Trace.ClrProfiler.Native/clr_helpers.cpp:1455-1563 | every printed type is read back whole |
| SigTypes.ParseSound | tracer/src/Datadog.Trace.ClrProfiler.Native/clr_helpers.cpp:1455-1563 | what was read is well formed and its printed form is what stood there |
| SigTypes.PrefixFree | tracer/src/Datadog.Trace.ClrProfiler.Native/clr_helpers.cpp:1455-1563 | no printed type is the beginning of another one |
| SigTypes.ParseTypeDefOrRefEncoded | tracer/src/Datadog.Trace.ClrProfiler.Native/clr_helpers.cpp:1434-1444 | splits the coded index into table and row |
| SigTypes.ParseType | tracer/src/Datadog.Trace.ClrProfiler.Native/clr_helpers.cpp:1455-1563 | agrees with the parsing function, stays within the end, and takes at most one activation for each byte consumed |
| MethodSignature.ParamExact | tracer/src/Datadog.Trace.ClrProfiler.Native/clr_helpers.cpp:1567-1581 | a parameter is accepted exactly where the printed form of an admissible one stands |
| MethodSignature.RetExact | tracer/src/Datadog.Trace.ClrProfiler.Native/clr_helpers.cpp:1585-1603 | the same for return types |
| MethodSignature.ParseParam | tracer/src/Datadog.Trace.ClrProfiler.Native/clr_helpers.cpp:1567-1581 | the method agrees with the parsing function |
| MethodSignature.ParseRetType | tracer/src/Datadog.Trace.ClrProfiler.Native/clr_helpers.cpp:1585-1603 | the method agrees with the parsing function |
| MethodSignature.SigExact | tracer/src/Datadog.Trace.ClrProfiler.Native/clr_helpers.cpp:1605-1657 | a signature is accepted exactly when the blob begins with its printed form |
| MethodSignature.ArgsTile | tracer/src/Datadog.Trace.ClrProfiler.Native/clr_helpers.cpp:1630-1654 | the slices hold the printed parameters, in order and contiguous but for a sentinel byte, up to the end of the signature |
| MethodSignature.OneSentinel | tracer/src/Datadog.Trace.ClrProfiler.Native/clr_helpers.cpp:1629-1640 | a signature holds at most one sentinel |
| MethodSignature.FunctionMethodSignature.TryParse | tracer/src/Datadog.Trace.ClrProfiler.Native/clr_helpers.cpp:1605-1657 | succeeds exactly on those blobs and leaves counts, return slice and parameter slices in the fields |
| TypeNames.WalkPrinted | tracer/src/Datadog.Trace.ClrProfiler.Native/clr_helpers.cpp:1223-1357 | on known types the printer delivers the recursive name and stops at the type's end; otherwise it stops short on a byte it does not know |
| TypeNames.WalkersAgreeAt | tracer/src/Datadog.Trace.ClrProfiler.Native/clr_helpers.cpp:1223-1563 | wherever the parser reads a type without a one-byte BYREF inside, the printer stops at the same byte exactly when all its simple types are known, and before it otherwise |
| TypeNames.WalkersAgree | tracer/src/Datadog.Trace.ClrProfiler.Native/clr_helpers.cpp:1223-1563 | for every well-formed type: printer and parser agree on name and end whatever follows if and only if all simple types in it are known, and this shows when nothing follows |
| TypeNames.ParamName | tracer/src/Datadog.Trace.ClrProfiler.Native/clr_helpers.cpp:1359-1363 | when all simple types of a parameter are known, the name of its slice, with an ampersand for a by-reference one, uses up exactly the slice |
| TypeNames.ParamNameExactly | tracer/src/Datadog.Trace.ClrProfiler.Native/clr_helpers.cpp:1359-1363 | a parameter is named and its slice used up, whatever follows, if and only if all its simple types are known |
| TypeNames.GetSigTypeTokName | tracer/src/Datadog.Trace.ClrProfiler.Native/clr_helpers.cpp:1223-1357 | the method delivers the name and the cursor of the walking function |
| SignatureNames.TypeRuns | tracer/src/Datadog.Trace.ClrProfiler.Native/clr_helpers.cpp:463-729 | from a printed type the scan reaches the point after it having appended the name of the type with all pending dimensions moved to its first leaf, at any nesting |
| SignatureNames.TypesRun | tracer/src/Datadog.Trace.ClrProfiler.Native/clr_helpers.cpp:463-732 | a list of printed types gives these names in order, or failure exactly when there are more than expected |
| SignatureNames.SignaturePrinted | tracer/src/Datadog.Trace.ClrProfiler.Native/clr_helpers.cpp:440-741 | on the printed form of a method signature the scan names the types the signature parser cuts out; all names are right if and only if there is no array of generic instances among or in them |
| SignatureNames.NamedExactly | tracer/src/Datadog.Trace.ClrProfiler.Native/clr_helpers.cpp:600-611 | the appended name is the type's own if and only if the type has no array of generic instances in it, at any depth |
| SignatureNames.FloatedLength | tracer/src/Datadog.Trace.ClrProfiler.Native/clr_helpers.cpp:600-611 | no dimension is lost: the name is as long as the type's own with the pending dimensions |
| SignatureNames.RunBalanced | tracer/src/Datadog.Trace.ClrProfiler.Native/clr_helpers.cpp:685-729 | the names handed out for arbitrary bytes and counts all have balanced angle brackets if and only if the names the metadata gives for types, and for generic types that announce arguments, do |
| SignatureNames.CloseLevels | tracer/src/Datadog.Trace.ClrProfiler.Native/clr_helpers.cpp:685-714 | dimensions, commas and brackets after a type |
| SignatureNames.TryParseSignatureTypes | tracer/src/Datadog.Trace.ClrProfiler.Native/clr_helpers.cpp:440-741 | the method delivers the names of the scan, padded with empty ones, and fails exactly when the scan does |
| LocalSignature.WritesWhatItDeclares | tracer/src/Datadog.Trace.ClrProfiler.Native/calltarget_tokens.cpp:615-689 | as many bytes are written as were declared, whatever the widths of the counts |
| LocalSignature.LocalsKept | tracer/src/Datadog.Trace.ClrProfiler.Native/calltarget_tokens.cpp:638-689 | for every set of local encodings that reads from the left, the new blob decodes to the old locals at their indices followed by the new ones |
| LocalTypes.SameType | tracer/src/Datadog.Trace.ClrProfiler.Native/lib/coreclr/src/inc/corhdr.h:867-920 | encodings of types in full, with pointers, shaped arrays, function pointers and modifiers: equal bytes mean equal types and equal rests |
| LocalTypes.NoneBeginsAnother | tracer/src/Datadog.Trace.ClrProfiler.Native/lib/coreclr/src/inc/corhdr.h:867-920 | no local of that grammar begins another |
| LocalTypes.LikeType | tracer/src/Datadog.Trace.ClrProfiler.Native/clr_helpers.cpp:1455-1563 | a type the parser accepts is encoded like a type of the standard only if all its one-byte types are of the standard |
| LocalTypes.LiftSpells | tracer/src/Datadog.Trace.ClrProfiler.Native/clr_helpers.cpp:1455-1563 | and then it is one, with the same bytes |
| LocalSignature.LocalsArePrefixFree | tracer/src/Datadog.Trace.ClrProfiler.Native/calltarget_tokens.cpp:647-685 | the locals of signature blobs are a set of encodings that reads from the left |
| LocalSignature.TypedLocalsKept | tracer/src/Datadog.Trace.ClrProfiler.Native/calltarget_tokens.cpp:638-689 | for these locals: the new blob decodes to old and new locals if and only if a return value adds two of them |
| LocalSignature.SlotIsLocal | tracer/src/Datadog.Trace.ClrProfiler.Native/calltarget_tokens.cpp:592-605 | the slice of a return value is a local exactly when its one-byte types are of the standard |
| LocalSignature.SpecIsLocal | tracer/src/Datadog.Trace.ClrProfiler.Native/calltarget_tokens.cpp:312-337 | the type spec of CallTargetReturn over it is a local exactly when, besides, it is not by reference |
| LocalSignature.ReturnDecodes | tracer/src/Datadog.Trace.ClrProfiler.Native/calltarget_tokens.cpp:592-689 | for every accepted return value: the new blob decodes to old and new locals if and only if the value is not by reference and of the standard; a by-reference value of the standard leaves a blob that does not decode |
| LocalSignature.RewriteDecodes | tracer/src/Datadog.Trace.ClrProfiler.Native/calltarget_tokens.cpp:528-712 | the same for whatever the rewrite puts together in a module whose type specs are read back as they were made |
| LocalSignature.RefIntReturn | tracer/src/Datadog.Trace.ClrProfiler.Native/calltarget_tokens.cpp:592-689 | the new signature of a method without locals that returns ref int does not decode |
| LocalSignature.SecondRewriteRefused | tracer/src/Datadog.Trace.ClrProfiler.Native/calltarget_tokens.cpp:553-566 | a rewritten signature is refused |
| LocalSignature.GuardReadsBytes | tracer/src/Datadog.Trace.ClrProfiler.Native/calltarget_tokens.cpp:553-566 | a signature is refused if and only if the bytes of its locals together end in those of the state local |
| LocalSignature.FalseAlarm | tracer/src/Datadog.Trace.ClrProfiler.Native/calltarget_tokens.cpp:553-566 | behind any locals, a last local other than the state local whose encoding ends in it makes the guard refuse, and one at least as long only then |
| LocalSignature.StateLastEnds | tracer/src/Datadog.Trace.ClrProfiler.Native/calltarget_tokens.cpp:553-566 | arrays of the state type and generic instances with it as last argument, at any depth, are such locals |
| LocalSignature.CallTargetTokens.ModifyLocalSig | tracer/src/Datadog.Trace.ClrProfiler.Native/calltarget_tokens.cpp:528-712 | the new token is that of the new signature, and the four indices and three tokens are those of the new locals; fails, leaving the rewriter alone, exactly when a base reference cannot be defined, a look-up fails, the guard refuses or the metadata refuses the blob; remembered references are never redefined |
| LocalSignature.CallTargetTokens.EnsureBaseCalltargetTokens | tracer/src/Datadog.Trace.ClrProfiler.Native/calltarget_tokens.cpp:153-253 | succeeds exactly when all eleven references are remembered or can be defined; what is remembered stays, and nothing else is added than what the metadata gave |
| LocalSignature.CallTargetTokens.GetTargetVoidReturnTypeRef | tracer/src/Datadog.Trace.ClrProfiler.Native/calltarget_tokens.cpp:265-289 | the token of CallTargetReturn, or nil when that or a base reference cannot be defined |
| LocalSignature.VoidReturnNil | tracer/src/Datadog.Trace.ClrProfiler.Native/calltarget_tokens.cpp:608-613 | a void method is given a local of the nil type if and only if there is no token for CallTargetReturn, or nil |
| LocalSignature.VoidReturnNilInstance | tracer/src/Datadog.Trace.ClrProfiler.Native/calltarget_tokens.cpp:608-613 | a module that can define everything but CallTargetReturn is one |
| LocalSignature.CallTargetTokens.GetTargetReturnValueTypeRef | tracer/src/Datadog.Trace.ClrProfiler.Native/calltarget_tokens.cpp:290-338 | the token the metadata gives for the type-spec blob of CallTargetReturn over the return type, or nil when it gives none or a reference cannot be defined |
| LocalSignature.CallTargetTokens.WriteSignature | tracer/src/Datadog.Trace.ClrProfiler.Native/calltarget_tokens.cpp:638-685 | the buffer holds the header, the old locals and the new ones |
| Utf.Exact8 | shared/src/native-src/miniutf.cpp:84-128 | a code point is decoded exactly where its encoding stands: there are no overlong forms |
| Utf.Exact16 | shared/src/native-src/miniutf.cpp:141-153 | the same for UTF-16 |
| Utf.PointsOfBytes | shared/src/native-src/miniutf.cpp:34-55 | decoding undoes encoding for all code points below 0x110000, surrogates included |
| Utf.BytesOfPoints | shared/src/native-src/miniutf.cpp:84-128 | encoding undoes decoding on every string that passes the check |
| Utf.Utf32RoundTrip | shared/src/native-src/miniutf.cpp:225-254 | UTF-32 to UTF-8 and back replaces exactly what is out of range, and the bytes always pass the check |
| Utf.Utf8ViaUtf32 | shared/src/native-src/miniutf.cpp:211-254 | UTF-8 to UTF-32 and back is the identity exactly on strings that pass the check |
| Utf.Utf16ViaUtf8 | shared/src/native-src/miniutf.cpp:214-247 | UTF-16 to UTF-8 and back is the identity exactly on strings that pass the check |
| Utf.Utf8ViaUtf16 | shared/src/native-src/miniutf.cpp:211-247 | UTF-8 to UTF-16 and back is the identity exactly on checked strings without surrogates |
| Utf.LoneSurrogateLost | shared/src/native-src/miniutf.cpp:104-112 | the three bytes of a surrogate pass the check and are lost on the way through UTF-16 |
| Utf.Utf8Encode | shared/src/native-src/miniutf.cpp:34-55 | appends the encoding |
| Utf.Utf16Encode | shared/src/native-src/miniutf.cpp:57-66 | appends the encoding |
| Utf.Utf8Decode | shared/src/native-src/miniutf.cpp:171-182 | one code point; the index moves on and never past the end; the flag is raised exactly on failure |
| Utf.Utf16Decode | shared/src/native-src/miniutf.cpp:184-195 | one code point; the index moves on and never past the end; the flag is raised exactly on failure |
| Utf.CheckUtf8 | shared/src/native-src/miniutf.cpp:201-213 | the loop decides the check |
| Utf.CheckUtf16 | shared/src/native-src/miniutf.cpp:201-216 | the loop decides the check |
| Utf.Utf8ToUtf32 | shared/src/native-src/miniutf.cpp:225-231 | the loop decodes the whole string |
| Utf.Utf8ToUtf16 | shared/src/native-src/miniutf.cpp:233-239 | the loop transcodes the whole string |
| Utf.Utf16ToUtf8 | shared/src/native-src/miniutf.cpp:241-247 | the loop transcodes the whole string |
| Utf.Utf32ToUtf8 | shared/src/native-src/miniutf.cpp:249-254 | the loop encodes the whole string |
| CanonicalOrdering.SortRun | shared/src/native-src/miniutf.cpp:351-354 | sorting a run orders it by class, loses nothing and keeps characters of one class in their order |
| CanonicalOrdering.OrderOrders | shared/src/native-src/miniutf.cpp:338-358 | the result is canonically ordered, a permutation in which starters keep their index, and stable within each class |
| CanonicalOrdering.CanonicalUnique | shared/src/native-src/miniutf.cpp:338-358 | two canonically ordered strings that agree class by class are equal, so these properties determine the result |
| CanonicalOrdering.OrderIdle | shared/src/native-src/miniutf.cpp:338-358 | ordering changes nothing exactly on ordered strings, and a second time never |
| CanonicalOrdering.CanonicalOrder | shared/src/native-src/miniutf.cpp:338-358 | the loop, which skips the starter behind each run, computes the canonical order in place |
| Composition.ComposeInPlace | shared/src/native-src/miniutf.cpp:360-389 | the in-place loop computes the left-to-right composition with the blocking rule, for any pair map |
| Composition.BlockedByLast | shared/src/native-src/miniutf.cpp:369-376 | comparing with the last class alone decides the blocking rule |
| Composition.UnicodeDecompose | shared/src/native-src/miniutf.cpp:277-299 | appends the decomposition |
| Composition.DecodeAndDecompose | shared/src/native-src/miniutf.cpp:330-336 | the decomposed string; the flag is raised exactly when the input fails the check |
| Composition.Normalize32 | shared/src/native-src/miniutf.cpp:326-392 | the method computes the normal form |
| Composition.NormalFormsWellFormed | shared/src/native-src/miniutf.cpp:394-406 | normal forms pass the check, the decomposed one is canonically ordered, the composed one is not longer |
| Composition.HangulRoundTrip | shared/src/native-src/miniutf.cpp:277-315 | decomposing and composing Hangul syllables gives them back, from bytes to bytes |

## Left out

- ModifyLocalSig: does not model what happens when the new signature is longer than the 500-byte buffer or the original one
  shorter than the state token, because the source checks neither. What the metadata answers does not depend on earlier
  calls.
- The machine that runs method bodies does not check them: exception objects are part of its data, and a handler that ends
  with nothing pending stops the run.
- DepthBound: takes a consistent assignment of stack depths as given, because verifying one is the runtime's work.
- `ICorProfilerInfo`, `IMetaData*` and the allocators are parameters: tokens are numbers, and metadata look-ups and user
  strings are functions the caller supplies. What a called member does is uninterpreted in the stack machine.
- The raw bytes of method headers and clause tables, padding and the tiny form of clauses: a body is given and returned
  decoded.
- `SetEHClause`, `ReplaceMethodCalls` and the emitters that set one opcode and one operand like those modelled.
- The union of target pointer and operand in `ILInstr` is two fields; list nodes are never freed.
- Wrap-around of `m_nInstrs * 10` and of code sizes: code stays below 2^31 bytes.
- The evaluation-stack bound counts `VarPush` as one, as the table does.
- The nested-class walk over the metadata in the explicit-stack printer: the finished name is a parameter, as is the number
  read behind the last backtick of a name.
- The name printers run only where they stay inside the readable bytes and meet encoded numbers: on anything else the
  source reads beyond the blob or jumps by a failed length.
- The parsers look at one byte before they check the end, so that byte must be readable; its value is proved to be
  irrelevant.
- `std::stable_sort` is used through its specification, not implemented as the library does it.
- The tables in `miniutfdata.h` are parameters, so conformance to a Unicode version is not claimed. `comp_idx` gives 0 both
  for "no entry" and for the first entry, so that a character without an entry is tried against the first pair; a
  composition map given as parameter includes that.
- `lowercase`, `utf32_check` and the copy of `miniutf.cpp` in the native loader, which differs in layout only.
- Callbacks, dynamic loading, configuration, logging and the managed side.
