# Verified model of the editor's text, image and storage cores

This project models the self-contained algorithms of the editor and of its terminal probes in Dafny and
proves what they promise. Every module follows one source file or one component of it:

| modules | what they model |
|---|---|
| SignatureMapping, SignatureCalls, SignatureReceivers, SignatureMeaning, SignatureSites, SignatureAcceptance, SignatureDiscovery, SignatureFinding | the change-signature refactoring: the mapping of parameter lists, the rewrite of calls, sites and arity references, and the discovery of both |
| Checksums, Png | the image probe's checksums and PNG encoder |
| PngReader, ChecksumsAgree, IendChunk, PngRoundTrip | a PNG decoder with its own checksums, names and signature, and that it reads every file the encoder writes |
| Base64, Kitty, SixelPalette, SixelText, Sixel, SixelPicture, SixelPixels, SixelPasses | the other image encoders, each against an independent decoder |
| ColorSpace, HueNotation, HueTies, HueShifts | colour space conversions, the rounding of hue notations, and exactly which colours that shifts |
| DecimalText, NamedColors, ColorTokens, ColorScan, ColorArguments, ColorMeaning, ColorFound | the colour literal scanner, and that it finds exactly the literals that stand in a text |
| ColorFormat, PrintedNumbers, AlphaShifts, ColorRoundTrip, ColorOffered | the colour formatter, that scanning undoes it, and what it offers |
| FoldBlocks, FoldMeaning, FoldDepth, FoldMarkers | code folding: normal form, nesting depth, markers and hidden lines |
| ExitStatus, SaveProtocol, SaveRuns | what becomes of every save, over whole sessions |
| Calendar, CalendarWalk, VersionNames, Backup, Retention | names, order and pruning of backup versions |
| LspFrames, LspHeads | the language-server probe's message frames, and heads of any fields |
| AutoPair | bracket and quote pairing while typing |
| HighlightSweep | the chunked highlight of the minimap, and the tree walk under it |
| Common, Decimal, Division, TextOrder, TextSearch, Bytes | shared vocabulary |

Code that works by changing things is modelled by methods with loops and by classes whose fields the methods
update; each is proved against a function or predicate of its inputs, and the properties are lemmas about
those. Text is a sequence of characters that stand for bytes.

How the source's terms are read:

- `double` is an exact real. `std::round` and `std::lround` round halves away from zero; printf rounds an exactly
  represented value half to even.
- `uint32_t` is a word of 32 bits in the CRC, and an arity read from digits wraps at 64 bits; sizes and byte
  offsets elsewhere are unbounded naturals, and where the source subtracts unsigned sizes the absence of underflow is proved.
- What a dispatcher, a write, a file read or a language query answers is a parameter; so are the clock and the
  order in which a directory lists its entries.
- The standard library's number reader is a parameter of the colour modules. All that is asked of it is that it
  reads printed decimals for what they say; PrintedNumbers.ParseNumberIsFaithful shows a reader that does.

Where the code does not do what it or its documentation says, the model follows the code:

- A hue notation can shift a colour: the whole-number check rounds halves away from zero while the text is printed
  half to even. HslShiftsExactly gives the exact condition over exact reals, on the colour's bytes; IndigoShifts is
  an instance whose hue and saturation binary floating point represents exactly. Of the four pairs of bytes only
  (104, 24) has the saturation 62.5 % there too; those of the other three lie beside it in binary, so that they are
  failures of the exact-real reading only. Colours between the bytes can shift near a byte's end (KeepsAnyColor,
  NearlyHalfGreyShifts).
- An alpha that is not exactly a byte can shift to the neighbouring byte when printed (AlphaSurvivesExactly, NearlyHalfShifts).
- An argument list whose first argument is empty, a token the parser supplied for a missing one, loses a separator
  (RewriteIsJoined, EmptyArgumentIsLost).
- An image without pixels is encoded into something that is not a PNG (PngReadsBack).
- A local save that fails asynchronously with an exception that says nothing is recorded as a success
  (LatestWriteIsKnown, SilentFailureIsForgotten); the synchronous path records it as a failure.
- A prune by number within one second can make the next version of that second sort before older ones
  (NewNameIsNewest, PruneOpensGap). Other names than a version's count as versions, its leftover temporary file among
  them: ParsesExactly says which.
- A token of no length, which the parser supplies for a missing one, is lost by the highlight sweep at the end of the
  text, and where a chunk begins if it ends a node with bytes: the walk leaves out that node (SweepIsWholeCall,
  MissingTokenIsLost).
- Toggling a fold twice leaves a collapsed marker where there was one of the other kind, instead of restoring that
  (TogglingTwiceRestores).

## Model

| member | source | states |
|---|---|---|
| SignatureMapping.OldIndexByName | Source/Editor/ChangeSignature.cpp:90-109 | the lookup table holds exactly the old positional names that occur once, each at its only index |
| SignatureMapping.SplitOld | Source/Editor/ChangeSignature.cpp:49-60 | positional parameters and keyword-only names are set apart, each in order |
| SignatureMapping.ReceiverMoves | Source/Editor/ChangeSignature.cpp:62-88 | true exactly when the receivers do not lead both lists under the same names |
| SignatureMapping.MapParameter | Source/Editor/ChangeSignature.cpp:117-153 | one new parameter is declined for the first reason that applies, or gets its origin: the only old parameter of its name, or its own default and label |
| SignatureMapping.MapParameters | Source/Editor/ChangeSignature.cpp:114-153 | the loop maps all new parameters exactly when each is acceptable; otherwise it declines for the first that is not |
| SignatureMapping.DroppedKeywords | Source/Editor/ChangeSignature.cpp:154-158 | the old keywords the new list does not name |
| SignatureMapping.BuildPositionMapping | Source/Editor/ChangeSignature.cpp:43-162 | a change is mapped if and only if no parameter is variadic, receivers stay first, no new name repeats, none changes its way of passing and every added parameter has a default; then the result is the mapping of the two lists, otherwise the decline names a real reason |
| SignatureMapping.NewNamesDistinct | Source/Editor/ChangeSignature.cpp:117-126 | an accepted new list has no name twice, positional or keyword |
| SignatureMapping.ReceiversLead | Source/Editor/ChangeSignature.cpp:62-88 | the receivers are the same leading names in the old and in the new positional list |
| SignatureMapping.MappingIsWellFormed | Source/Editor/ChangeSignature.cpp:43-162 | every mapping the builder accepts keeps no old parameter twice, keeps receivers in place and stays within the old arity: what all later unsigned index arithmetic rests on |
| SignatureMapping.MappingIsUnique | Source/Editor/ChangeSignature.cpp:43-162 | two old and new lists admit one mapping only, whatever the iteration order of the name tables |
| SignatureCalls.SplitArguments | Source/Editor/ChangeSignature.cpp:167-190 | the loop sets positional arguments apart, keeps the surviving named ones and refuses spread and foreign named arguments, the first offender deciding the reason |
| SignatureCalls.ArgumentStep | Source/Editor/ChangeSignature.cpp:171-190 | how one more argument extends the positional and the named arguments, or refuses the call for good |
| SignatureCalls.CountSupplied | Source/Editor/ChangeSignature.cpp:192-203 | the leading run of receivers that this kind of call object supplies |
| SignatureCalls.RealignArguments | Source/Editor/ChangeSignature.cpp:224-248 | the loop over the origins writes exactly the new positional arguments, or refuses when one is missing |
| SignatureCalls.RewriteArgumentList | Source/Editor/ChangeSignature.cpp:164-253 | the rewrite refuses for exactly the first reason that applies and otherwise writes the new positional arguments followed by the surviving named ones |
| SignatureCalls.ImplicitFits | Source/Editor/ChangeSignature.cpp:192-234 | `oldArity - implicit` and `oldIndex - implicit` never underflow |
| SignatureReceivers.ObjectSupplies | Source/Editor/ChangeSignature.cpp:192-211 | how many leading parameters each kind of call object supplies, by kind of receiver |
| SignatureReceivers.OneReceiver | Source/Editor/ChangeSignature.cpp:192-211 | with one leading receiver the object supplies it exactly for: Always and any object but an explicit one, Instance and an instance, Any and an instance, a type or a first parameter; and without, the first parameter for an object that is one |
| SignatureReceivers.MethodCalls | Source/Editor/ChangeSignature.cpp:164-234 | a method with one instance receiver: called through an instance a call passes the new parameters from the second on, through its type or explicitly the receiver too |
| SignatureReceivers.InstanceCallDropsTheLast | Source/Editor/ChangeSignature.cpp:192-234 | an input: `shape.area(1, 2)` whose last parameter goes becomes `1` |
| SignatureReceivers.TypeCallKeepsTheReceiver | Source/Editor/ChangeSignature.cpp:192-234 | called through its type the same method keeps the receiver it was passed |
| SignatureMeaning.OriginsLieInNewText | Source/Editor/ChangeSignature.cpp:139-152 | every default and label an origin points at lies in the text of the new list |
| SignatureMeaning.PositionalMeaningPreserved | Source/Editor/ChangeSignature.cpp:43-253 | meaning preservation: for every accepted change and call, the object supplies the same leading parameters before and after, each kept parameter is passed its old argument text, each new one its own default with its label |
| SignatureMeaning.KeywordMeaningPreserved | Source/Editor/ChangeSignature.cpp:154-190 | a named argument survives, as written and in order, exactly when the new list still has its keyword-only parameter; one that goes names no parameter of the new list at all |
| SignatureMeaning.UndoRestoresArguments | Source/Editor/ChangeSignature.cpp:217-248 | a reordering followed by its inverse gives back the original argument list |
| SignatureMeaning.RewriteIsJoined | Source/Editor/ChangeSignature.cpp:217-252 | the list a rewritten call is given is its arguments with the separator between each two if and only if there are not two or the first to be written is not empty: in the call for a kept parameter, in the new list for a new one, else the first surviving named one |
| SignatureMeaning.EmptyArgumentIsLost | Source/Editor/ChangeSignature.cpp:217-223 | an input for the other case: a call `f(, x)` whose parameters stay where they were is given the list `x` |
| SignatureMeaning.TextIsJoined | Source/Editor/ChangeSignature.cpp:217-223 | of any pieces: `append` writes them with the separator between each two if and only if there is nothing to separate or the first piece is not empty |
| SignatureSites.Pigeonhole | Source/Editor/ChangeSignature.cpp:255-300 | distinct numbers below n are at most n |
| SignatureSites.OrderInRange | Source/Editor/ChangeSignature.cpp:255-300 | the new order of a site's components names distinct existing components, so no index leaves the range |
| SignatureSites.ResultStaysLast | Source/Editor/ChangeSignature.cpp:270-300 | the result component of a curried type stays last |
| SignatureSites.BuildOrder | Source/Editor/ChangeSignature.cpp:270-285 | the order is built exactly when nothing new is added: kept components first, then what runs on past the parameters |
| SignatureSites.WritePieces | Source/Editor/ChangeSignature.cpp:285-299 | component texts in their new order, with the old separators left where they were |
| SignatureSites.PermuteSignature | Source/Editor/ChangeSignature.cpp:255-300 | refuses for exactly the stated reasons; otherwise replaces the span of the components with the permuted texts and the original separators, or empties the list |
| SignatureSites.SiteIsItsPieces | Source/Editor/ChangeSignature.cpp:285-299 | a site text is what its components and separators spell |
| SignatureSites.ReorderedReadsBack | Source/Editor/ChangeSignature.cpp:255-300 | the rewritten site, with its byte ranges recomputed, has the same separators and surroundings and the permuted component texts |
| SignatureSites.UndoRestoresSite | Source/Editor/ChangeSignature.cpp:255-300 | a permutation followed by its inverse, ranges recomputed, restores the site text exactly |
| SignatureSites.SignatureChangeUndone | Source/Editor/ChangeSignature.cpp:43-300 | two pure reorderings of a parameter list that undo each other undo each other at every site |
| SignatureSites.SiteIsRewrittenWhen | Source/Editor/ChangeSignature.cpp:258-283 | a site is rewritten if and only if it has no keyword-only or variadic parameter, no keyword stays or goes, nothing is new, and it spells out the old parameters: just these, or as a curried type these and more |
| SignatureSites.ResultComesLast | Source/Editor/ChangeSignature.cpp:267-300 | what a curried type ends in is what the rewritten type ends in |
| SignatureSites.RewriteArityReference | Source/Editor/ChangeSignature.cpp:302-317 | a reference by arity is rewritten to the new arity exactly when it names the old one and, used as a value, the change is the identity |
| SignatureSites.ArityReferenceFollows | Source/Editor/ChangeSignature.cpp:302-317 | the rewritten digits are the new positional parameter count, and a value reference is only kept when every call through it passes what it passed before |
| SignatureAcceptance.ChangeIsMappedWhen | Source/Editor/ChangeSignature.cpp:43-162 | a change is mapped if and only if no parameter is variadic, the old receivers lead their list and the new one by the same names, no new name is used twice, and every new parameter is known from its own kind or has a default and is unknown |
| SignatureAcceptance.DeclineMeans | Source/Editor/ChangeSignature.cpp:117-150 | which reason a declined parameter gives: a repeated name, else a changed way of passing, else a missing default |
| SignatureAcceptance.ListIsNamed | Source/Editor/ChangeSignature.cpp:17-22 | a parameter goes by the text of its name, or by the whole of it if it has none |
| SignatureAcceptance.CallIsRewrittenWhen | Source/Editor/ChangeSignature.cpp:164-248 | a call is rewritten if and only if its arguments are understood, an object that is the first parameter stays that, it passes no more than the old list takes, nor fewer where that is partial application, and every parameter kept has its argument in the call |
| SignatureAcceptance.CallIsLeftBecause | Source/Editor/ChangeSignature.cpp:164-248 | otherwise the reason given is the first of these that fails |
| SignatureDiscovery.PositionalArity | Source/Editor/ChangeSignature.cpp:332-350 | the range of argument counts a signature takes by place |
| SignatureDiscovery.PositionalCount | Source/Editor/ChangeSignature.cpp:359-372 | the number of arguments a call passes by place, or none when a spread makes it unknowable |
| SignatureDiscovery.ReadArity | Source/Editor/ChangeSignature.cpp:415-421 | digits are read as the number below 2^64 that differs from theirs by a multiple of 2^64; anything else is refused |
| SignatureDiscovery.PrintedArityReads | Source/Editor/ChangeSignature.cpp:415-421 | reading the digits of a number that fits a word gives that number |
| SignatureDiscovery.KeepsReference | Source/Editor/ChangeSignature.cpp:411-423 | the first erase keeps a site exactly when it is no reference by arity or the target accepts the arity |
| SignatureDiscovery.EraseReferences | Source/Editor/ChangeSignature.cpp:410-423 | the first erase as a whole, order kept |
| SignatureDiscovery.EraseOverloadCalls | Source/Editor/ChangeSignature.cpp:424-442 | the second erase keeps exactly the calls that may be the target's and counts the ambiguous and the other overloads' calls |
| SignatureDiscovery.ScanSignatures | Source/Editor/ChangeSignature.cpp:390-400 | signatures of the name are sites, or overloads when their parameter count differs |
| SignatureDiscovery.ScanCalls | Source/Editor/ChangeSignature.cpp:402-407 | the calls of the name become call sites |
| SignatureDiscovery.ScanCandidates | Source/Editor/ChangeSignature.cpp:382-408 | one pass over the candidates collects sites, overloads and calls, and counts the unreadable files |
| SignatureDiscovery.DiscoverSignatureAndCallSites | Source/Editor/ChangeSignature.cpp:376-444 | the whole discovery: sites, kept calls and all counters as functions of the scanned files |
| SignatureDiscovery.ErasesCompose | Source/Editor/ChangeSignature.cpp:410-442 | the two erases together judge every found call once |
| SignatureDiscovery.EveryCallIsAccountedFor | Source/Editor/ChangeSignature.cpp:410-442 | conservation: found calls are the kept ones, the other overloads' and the removed references; kept ones are the target's own and the ambiguous |
| SignatureDiscovery.LeftOutOnlyWhenNotOurs | Source/Editor/ChangeSignature.cpp:424-442 | a call is left out if and only if its count is known, the target does not accept it and some overload does; a call both could mean is kept and counted |
| SignatureDiscovery.AcceptedCounts | Source/Editor/ChangeSignature.cpp:332-354 | a list accepts a count if and only if it is at least its parameters without default or receiver and, unless one is variadic, at most all that can be filled by place |
| SignatureDiscovery.MethodCounts | Source/Editor/ChangeSignature.cpp:332-354 | an input: a method with a receiver and a default accepts one to three arguments |
| SignatureDiscovery.CountedArguments | Source/Editor/ChangeSignature.cpp:356-372 | a call's count is that of its arguments without a name; a spread one between delimiters leaves it unknown |
| SignatureDiscovery.ReferenceKeptByArity | Source/Editor/ChangeSignature.cpp:411-423 | a reference by arity is kept if and only if the target accepts the number its digits print |
| SignatureFinding.CallsFound | Source/Editor/ChangeSignature.cpp:382-408 | a call site is found if and only if it is a call, in a candidate that can be read, whose callee is spelled as the name |
| SignatureFinding.SignaturesFound | Source/Editor/ChangeSignature.cpp:390-400 | a signature of the name is to be rewritten if and only if it has the target's number of parameters or is a curried type |
| SignatureFinding.OverloadsFound | Source/Editor/ChangeSignature.cpp:394-398 | every other one is an overload, with the counts it accepts |
| SignatureFinding.FoundOnce | Source/Editor/ChangeSignature.cpp:402-407 | every call of a file is found once |
| SignatureFinding.PlacedOnce | Source/Editor/ChangeSignature.cpp:390-400 | every signature of the name in a file is a site or an overload, once |
| SignatureFinding.CallStaysWhen | Source/Editor/ChangeSignature.cpp:410-442 | a found call stays if and only if it is a reference in decimal digits to an arity the target accepts, or an ordinary call that the target suits or no overload does |
| SignatureFinding.CountsReported | Source/Editor/ChangeSignature.cpp:424-442 | the numbers reported are those of the ordinary calls an overload suits: ambiguous where the target suits them too, left otherwise |
| Checksums.LookupIsEightBits | Tools/TerminalImageAlphaProbe.cpp:139-150 | one table lookup is eight steps of the bit-by-bit reflected polynomial division |
| Checksums.CrcContinues | Tools/TerminalImageAlphaProbe.cpp:135-152 | continuing from a partial CRC gives the CRC of the concatenation |
| Checksums.CrcTable.Build | Tools/TerminalImageAlphaProbe.cpp:136-147 | the lazily built table holds eight shifts of every byte |
| Checksums.CrcTable.Lookup | Tools/TerminalImageAlphaProbe.cpp:148-150 | one turn of the loop feeds one byte to the division |
| Checksums.CrcTable.Crc32 | Tools/TerminalImageAlphaProbe.cpp:135-152 | the table-driven CRC equals the bitwise division, for every byte string and starting value |
| Checksums.ReduceOnTheWay | Tools/TerminalImageAlphaProbe.cpp:157-160 | reducing a sum early does not change its residue |
| Checksums.Adler32 | Tools/TerminalImageAlphaProbe.cpp:154-162 | the running reduced sums give the Adler-32 value defined by the unreduced sums of RFC 1950 |
| Bytes.ByteVector.PushBe32 | Tools/TerminalImageAlphaProbe.cpp:164-169 | four bytes, most significant first, are appended |
| Bytes.Be32ReadsBack | Tools/TerminalImageAlphaProbe.cpp:164-169 | reading them gives the 32-bit number back, whatever follows |
| Png.PushChunk | Tools/TerminalImageAlphaProbe.cpp:171-178 | appends length, type, data and the CRC of type and data |
| Png.CollectRows | Tools/TerminalImageAlphaProbe.cpp:184-189 | each row behind a filter byte of zero |
| Png.StoreRaw | Tools/TerminalImageAlphaProbe.cpp:191-206 | the zlib stream: header, stored blocks, Adler-32 |
| Png.PushStored | Tools/TerminalImageAlphaProbe.cpp:198-203 | one stored block with its length and the complement |
| Png.EncodePng | Tools/TerminalImageAlphaProbe.cpp:183-221 | the whole file |
| ChecksumsAgree.PolynomialHasTerms | Tools/TerminalImageAlphaProbe.cpp:136-147 | the divisor the table is built from has exactly the fifteen terms of annex D of the PNG specification |
| ChecksumsAgree.CrcsAgree | Tools/TerminalImageAlphaProbe.cpp:135-152 | for every byte string the table-driven CRC is the remainder that annex D defines, as the decoder computes it from the terms of its polynomial |
| ChecksumsAgree.AdlersAgree | Tools/TerminalImageAlphaProbe.cpp:154-162 | for every byte string the running Adler-32 is the sum and the weighted sum of section 8.2 of RFC 1950 |
| IendChunk.IendBytes | Tools/TerminalImageAlphaProbe.cpp:171-178 | the chunk without data is the twelve bytes 00 00 00 00 49 45 4e 44 ae 42 60 82 |
| IendChunk.FileIsFramed | Tools/TerminalImageAlphaProbe.cpp:183-221 | every file begins with the eight bytes 89 50 4e 47 0d 0a 1a 0a and ends with these twelve |
| PngRoundTrip.ChunkReadsBack | Tools/TerminalImageAlphaProbe.cpp:171-178 | a chunk of at most 2^31-1 bytes is read back by a decoder of section 5.3 of the PNG specification, whose own CRC accepts it |
| PngRoundTrip.BlocksReadBack | Tools/TerminalImageAlphaProbe.cpp:194-205 | the stored blocks decode (section 3.2.4 of RFC 1951) to the raw bytes, with exactly the last one marked final |
| PngRoundTrip.ZlibReadsBack | Tools/TerminalImageAlphaProbe.cpp:191-206 | the zlib stream decodes (section 2.2 of RFC 1950), whose own Adler-32 accepts it |
| PngRoundTrip.RowsReadBack | Tools/TerminalImageAlphaProbe.cpp:184-189 | unfiltering gives the pixels back |
| PngRoundTrip.HeaderReadsBack | Tools/TerminalImageAlphaProbe.cpp:208-216 | the header gives width and height back and is valid exactly when both are at least 1 (and below 2^31) |
| PngRoundTrip.PngReadsBack | Tools/TerminalImageAlphaProbe.cpp:183-221 | the main result: the reference decoder returns the same image if and only if width and height are at least 1; what it returns is never a different image |
| Base64.ToGroup | Tools/TerminalImageAlphaProbe.cpp:228-236 | one to three bytes as four characters, padding for what is missing |
| Base64.ToBase64 | Tools/TerminalImageAlphaProbe.cpp:223-239 | the loop writes the groups of the whole data |
| Base64.DecodeUndoesEncode | Tools/TerminalImageAlphaProbe.cpp:223-239 | decoding (section 4 of RFC 4648) undoes encoding, for every byte string |
| Kitty.EmitChunks | Tools/TerminalImageAlphaProbe.cpp:252-264 | codes of at most 4096 characters, the placement with the first, all but the last announcing more |
| Kitty.EmitKitty | Tools/TerminalImageAlphaProbe.cpp:249-265 | the emitter on an image |
| Kitty.ChunksRead | Tools/TerminalImageAlphaProbe.cpp:252-264 | following the announcements collects exactly the payload |
| Kitty.PlacementReads | Tools/TerminalImageAlphaProbe.cpp:257-260 | the keys of the first code give width, height, columns, rows and the announcement |
| Kitty.FirstCode | Tools/TerminalImageAlphaProbe.cpp:252-264 | a code carries 4096 characters, or all that are left, and the codes behind it the rest |
| Kitty.KittyReadsBack | Tools/TerminalImageAlphaProbe.cpp:249-265 | a terminal that checks action, format and pixel count and limits a code to 4096 characters shows every image as it is, in the cells asked for, however many codes it takes; for one without pixels nothing is sent |
| SixelPalette.FindSlot | Tools/TerminalImageAlphaProbe.cpp:285-291 | the slot of a colour, if it has one |
| SixelPalette.AssignSlot | Tools/TerminalImageAlphaProbe.cpp:279-297 | one pixel: its slot, and the palette grown by its colour if there is room |
| SixelPalette.PlaceRow | Tools/TerminalImageAlphaProbe.cpp:279-299 | one row of pixels |
| SixelPalette.BuildPalette | Tools/TerminalImageAlphaProbe.cpp:271-300 | the palette is the first 250 distinct reduced colours painted, by first appearance; each pixel has its colour's slot or none |
| SixelPalette.PaletteIsDistinct | Tools/TerminalImageAlphaProbe.cpp:285-296 | palette colours are pairwise distinct, at most 250, and before the cut exactly the colours painted somewhere |
| SixelPalette.UnpaintedWhen | Tools/TerminalImageAlphaProbe.cpp:281-297 | a pixel has no slot if and only if its alpha is below 128 or its colour is not in the palette; with at most 250 colours only alpha decides |
| SixelPalette.PercentagesAreDistinct | Tools/TerminalImageAlphaProbe.cpp:278-305 | the percentages sent to the terminal still tell all palette colours apart |
| SixelText.DataChar | Tools/TerminalImageAlphaProbe.cpp:315-319 | every data character lies between 63 and 126 |
| SixelText.ItemsReadBack | Tools/TerminalImageAlphaProbe.cpp:302-334 | a reader of the sixel grammar recovers the items that were written, whatever they are |
| SixelText.DotsPaint | Tools/TerminalImageAlphaProbe.cpp:310-319 | a data character touches exactly the dots of its set bits |
| Sixel.WriteColumn | Tools/TerminalImageAlphaProbe.cpp:310-317 | the six dots of a column for one slot |
| Sixel.DotsInRange | Tools/TerminalImageAlphaProbe.cpp:310-319 | the dots fit one data character and bit r is set exactly when row r of the band has the slot |
| Sixel.WriteRow | Tools/TerminalImageAlphaProbe.cpp:309-320 | the data characters of one slot's pass over a band, and whether any dot is set |
| Sixel.WriteBand | Tools/TerminalImageAlphaProbe.cpp:306-330 | the passes of all slots that occur in the band, a return between them |
| Sixel.WriteSixel | Tools/TerminalImageAlphaProbe.cpp:302-335 | introducer, palette definitions, bands, terminator |
| Sixel.EmitSixel | Tools/TerminalImageAlphaProbe.cpp:270-335 | the emitter on an image |
| SixelPicture.TextReadsBack | Tools/TerminalImageAlphaProbe.cpp:302-335 | the emitted text parses to its size and to exactly its items |
| SixelPicture.DefinitionsDefine | Tools/TerminalImageAlphaProbe.cpp:303-305 | reading the definitions defines exactly the palette |
| SixelPicture.BandShown | Tools/TerminalImageAlphaProbe.cpp:306-332 | after a band the canvas holds exactly the pixels of all bands so far, each in its slot |
| SixelPicture.SixelShowsGrid | Tools/TerminalImageAlphaProbe.cpp:302-335 | the terminal's canvas holds exactly the pixels that have a slot, each with its slot, and nothing else |
| SixelPicture.SixelShowsImage | Tools/TerminalImageAlphaProbe.cpp:267-335 | for every image and pixel: the terminal shows the reduced colour's percentages if the pixel is painted and its colour is among the first 250, and leaves it untouched otherwise |
| SixelPixels.SixelShowsPixels | Tools/TerminalImageAlphaProbe.cpp:267-335 | on the bytes of the image: a pixel of opacity 128 or more whose colour in steps of eight is among the first 250 is shown in the percentages of these steps, every other pixel is left untouched |
| SixelPasses.BandsAreCounted | Tools/TerminalImageAlphaProbe.cpp:307-332 | the terminal moves down once for every six rows begun |
| SixelPasses.PassesAreNeeded | Tools/TerminalImageAlphaProbe.cpp:309-330 | in each band a slot is selected once if it has a pixel there, and not otherwise |
| ColorSpace.HslIsTents | Source/Editor/ColorLiteral.cpp:836-850 | HslToRgb in closed form: three tent functions of the hue around the lightness |
| ColorSpace.HslRoundTrip | Source/Editor/ColorLiteral.cpp:811-850 | HslToRgb undoes RgbToHsl exactly on every colour of the unit cube, in all hue sectors and for greys, without dividing by zero |
| ColorSpace.HwbIsTents | Source/Editor/ColorLiteral.cpp:266-278 | HwbToRgb in closed form |
| ColorSpace.HwbRoundTrip | Source/Editor/ColorLiteral.cpp:266-278 | the hue of RgbToHsl with min as whiteness and 1 - max as blackness gives the colour back exactly |
| HueNotation.FineHslIsClose | Source/Editor/ColorLiteral.cpp:550-573 | an hsl() with two decimals reads back within 1/1000 in every channel, for every colour |
| HueNotation.FineHwbIsClose | Source/Editor/ColorLiteral.cpp:550-573 | the same for hwb(), across the boundary where the printed pair collapses to grey |
| HueNotation.GridChannelIsKept | Source/Editor/ColorLiteral.cpp:581-583 | a channel within 1/1000 of a byte is that byte |
| HueNotation.FineKeepsColor | Source/Editor/ColorLiteral.cpp:550-573 | two decimals never shift an 8-bit colour, in either notation |
| HueNotation.RoundingsAgree | Source/Editor/ColorLiteral.cpp:538-573 | std::round and printf rounding agree except on ties over an even number |
| HueNotation.NoGridTies | Source/Editor/ColorLiteral.cpp:538-573 | a percentage of a byte, or of the mean of two, is never a tie |
| HueNotation.HwbNeverShifts | Source/Editor/ColorLiteral.cpp:538-573 | hwb() keeps every 8-bit colour, whichever branch prints it |
| HueNotation.LightnessNeverTies | Source/Editor/ColorLiteral.cpp:538-573 | the lightness of an 8-bit colour is never a tie |
| HueNotation.KeepsAnyColor | Source/Editor/ColorLiteral.cpp:538-573 | any colour in gamut keeps its bytes if, where the whole-number check passes, no percentage is a tie over an even number, and where it does not, no channel is within 1/1000 of its byte's end |
| HueNotation.NearlyHalfGreyShifts | Source/Editor/ColorLiteral.cpp:538-573 | near its byte's end a colour can shift in either notation: the grey 0.49999 is byte 127, and is printed as 50 %, which is 128 |
| HueTies.PassingTies | Source/Editor/ColorLiteral.cpp:538-549 | of all pairs of a greatest and a smallest byte whose saturation is a tie over an even number of percent, the whole-number check can pass only eight |
| HueTies.TiesDecided | Source/Editor/ColorLiteral.cpp:538-573 | at such a pair, the percentages printed read back as the bytes they were printed for if and only if the pair is none of (104, 24), (231, 151), nor (91, 21) or (234, 164) with one of eleven middle bytes |
| HueShifts.RoundedHue | Source/Editor/ColorLiteral.cpp:538-573 | rounding the hue of a colour to a whole degree keeps the order of its channels: the middle one moves to the nearest sixtieth between the other two |
| HueShifts.PercentagesReadAs | Source/Editor/ColorLiteral.cpp:538-573 | whole degrees and percents read back as the colour if and only if its three bytes are those of an integer formula in them |
| HueShifts.HslShiftsExactly | Source/Editor/ColorLiteral.cpp:538-573 | over exact reals, hsl() shifts an 8-bit colour if and only if the whole-number check passes and its greatest and smallest bytes are 104 and 24 or 231 and 151, or 91 and 21 or 234 and 164 with one of eleven bytes between |
| HueShifts.IndigoShifts | Source/Editor/ColorLiteral.cpp:528-573 | the promise that accepting a presentation never shifts the colour is false: rgb(24, 24, 104) is offered as hsl(240, 62%, 25%), which is rgb(24, 24, 103); its hue and saturation are exact in binary too |
| DecimalText.TrimReads | Source/Editor/ColorLiteral.cpp:488-494 | trailing zeros and a bare point can go without changing the number read |
| DecimalText.FormatReads | Source/Editor/ColorLiteral.cpp:485-496 | ParseNumber reads what FormatDouble prints as the value rounded to its last printed place, with the unit behind it |
| NamedColors.BoundSplits | Source/Editor/ColorLiteral.cpp:227-231 | the halving search splits a sorted table at the name |
| NamedColors.LookupFinds | Source/Editor/ColorLiteral.cpp:227-241 | every name of a sorted table is found as its own entry, only `transparent` not opaque |
| NamedColors.NameOfMeans | Source/Editor/ColorLiteral.cpp:771-775 | the reverse search gives an opaque name of exactly that value, and none exactly when there is none |
| NamedColors.NameIsOfColor | Source/Editor/ColorLiteral.cpp:227-241 | the name offered for a colour looks up as that colour |
| ColorTokens.CutArguments | Source/Editor/ColorLiteral.cpp:381-424 | the cursor loop computes the split into values and alpha, with its error cases |
| ColorTokens.ThreeSplit | Source/Editor/ColorLiteral.cpp:381-424 | three components behind commas or blanks are cut into exactly these |
| ColorTokens.FourSplit | Source/Editor/ColorLiteral.cpp:414-419 | a fourth positional value is the alpha |
| ColorTokens.SlashSplit | Source/Editor/ColorLiteral.cpp:408-413 | a value behind a slash is the alpha |
| ColorScan.TurnAt | Source/Editor/ColorLiteral.cpp:588-679 | one turn of the scan always moves on and passes over exactly the literal it finds |
| ColorScan.ScanWord | Source/Editor/ColorLiteral.cpp:631-679 | the word branch: functional, named or nothing |
| ColorScan.ScanFunction | Source/Editor/ColorLiteral.cpp:644-669 | the functional branch with its 128-character limit |
| ColorScan.ScanColorLiterals | Source/Editor/ColorLiteral.cpp:585-681 | the scan terminates and returns the literals of its turns in order |
| ColorScan.ScanIsOrderly | Source/Editor/ColorLiteral.cpp:585-681 | on every text the literals lie inside it, are not empty, ascend and do not overlap |
| ColorScan.ColorLiteralContaining | Source/Editor/ColorLiteral.cpp:683-693 | stopping at the first literal behind the offset finds what a full search finds, and nothing exactly when no literal touches the offset, its end included |
| ColorScan.ScanningIsLocal | Source/Editor/ColorLiteral.cpp:585-681 | each literal found, cut out and scanned by itself, is found again whole, with the same colour and syntax |
| ColorArguments.EveryTextAlternates | Source/Editor/ColorLiteral.cpp:381-424 | every text is values with gaps of blanks, tabs, commas and slashes around them |
| ColorArguments.SplitsWhen | Source/Editor/ColorLiteral.cpp:381-424 | the cursor cuts every text into these values, and takes them if and only if there are three and no slash, or four with at most one slash, which stands before the fourth: that is the alpha |
| ColorArguments.CallSays | Source/Editor/ColorLiteral.cpp:303-462 | a text inside a call is read as a colour if and only if its values say it: channels as 255ths or percent cut to 0 to 1, hues in degrees, turns, gradians or radians, percentages with or without sign |
| ColorMeaning.CallIs | Source/Editor/ColorLiteral.cpp:644-669 | the turn at a name finds a call if and only if one stands there: a pair of parentheses within 128 characters with none between, and a colour said inside |
| ColorMeaning.LiteralsStand | Source/Editor/ColorLiteral.cpp:585-681 | on every text and for every language, each literal found stands for what its syntax says, in the digits, the name or the values of its own text |
| ColorMeaning.ScanStands | Source/Editor/ColorLiteral.cpp:585-681 | so of a scan as a whole; where the language has no names none is Named, where it has no short forms none is short |
| ColorFound.FoundJustWhereOneStands | Source/Editor/ColorLiteral.cpp:585-681 | the scan's turn at a place finds a literal if and only if one stands there, in any letter case, and then that one |
| ColorFound.WholeTextIsFound | Source/Editor/ColorLiteral.cpp:585-681 | a text that is one literal is scanned as that literal and nothing else |
| ColorFormat.ChooseAlpha | Source/Editor/ColorLiteral.cpp:501-511 | the loop picks the first precision at which the printed alpha reads back as the same byte, at most four decimals |
| ColorFormat.LongHexScans | Source/Editor/ColorLiteral.cpp:513-522 | the six and eight digit forms scan as the bytes they were printed from |
| ColorFormat.ShortHexScans | Source/Editor/ColorLiteral.cpp:703-720 | so do the three and four digit forms, for channels of repeated nibbles |
| PrintedNumbers.ParseNumberIsFaithful | Source/Editor/ColorLiteral.cpp:289-301 | a reader of plain decimal notation reads every printed number as what it says |
| PrintedNumbers.UnitsWithin | Source/Editor/ColorLiteral.cpp:485-496 | rounding does not carry a value past a whole bound |
| PrintedNumbers.HueTextsRead | Source/Editor/ColorLiteral.cpp:550-573 | the printed components of a hue notation read back as the components the shift analysis takes them to be |
| AlphaShifts.AlphaSurvivesExactly | Source/Editor/ColorLiteral.cpp:498-511 | over exact reals, an alpha reads back as another byte if and only if it lies before the end of a byte that is 1, 14, 25, 29 or 42 modulo 51, or after the start of one that is 9, 22, 37 or 50, nearer to the four-decimal number across that boundary than to its own |
| AlphaShifts.AlphaByteSurvives | Source/Editor/ColorLiteral.cpp:498-511 | an alpha that is exactly a byte is printed so that it reads back as that byte |
| AlphaShifts.FourDecimalsSurvive | Source/Editor/ColorLiteral.cpp:498-511 | so is an alpha of at most four decimals |
| AlphaShifts.NearlyHalfShifts | Source/Editor/ColorLiteral.cpp:498-511 | the promise of a round trip is false of other alphas: 0.49999 is byte 127, and every precision prints 0.5, which is 128 |
| ColorRoundTrip.CallScans | Source/Editor/ColorLiteral.cpp:644-669 | a call whose inside is at most 126 characters without parentheses is one literal, if it means a colour |
| ColorRoundTrip.RgbScans | Source/Editor/ColorLiteral.cpp:722-735 | rgb() and rgba() scan as their bytes |
| ColorRoundTrip.HueScans | Source/Editor/ColorLiteral.cpp:736-753 | hsl(), hsla() and hwb() scan as the colour their printed components stand for |
| ColorRoundTrip.NamedScans | Source/Editor/ColorLiteral.cpp:754-777 | names scan as their colour, `transparent` included |
| ColorRoundTrip.ScanUndoesFormat | Source/Editor/ColorLiteral.cpp:585-780 | scan undoes format in all ten syntaxes: whatever FormatColor writes, scanning it finds one literal, the whole text, of the same syntax and of the colour the text stands for |
| ColorRoundTrip.BytesSurvive | Source/Editor/ColorLiteral.cpp:695-780 | outside the hue notations red, green and blue bytes of every colour survive |
| ColorRoundTrip.HueBytesSurvive | Source/Editor/ColorLiteral.cpp:736-753 | over exact reals, in a hue notation the bytes of an 8-bit colour survive the whole way through text if and only if the notation is hwb() or it is not the case that the whole-number check passes and the bytes are the shifting ones |
| ColorRoundTrip.OtherBytesSurvive | Source/Editor/ColorLiteral.cpp:736-753 | those of any other colour survive the whole way through text under the condition of KeepsAnyColor |
| ColorOffered.FormattedWhen | Source/Editor/ColorLiteral.cpp:698-780 | a colour can be written in a syntax if and only if: opaque for those without alpha, bytes of two equal digits for the short ones, an opaque entry of the table or nothing at all for a name |
| ColorOffered.HexIsSpelled | Source/Editor/ColorLiteral.cpp:513-522 | so many lower-case digits |
| ColorOffered.RgbIsSpelled | Source/Editor/ColorLiteral.cpp:722-735 | bytes in decimal with commas between |
| ColorOffered.HslIsSpelled | Source/Editor/ColorLiteral.cpp:565-573 | hsl() and hsla() with commas between |
| ColorOffered.HwbIsSpelled | Source/Editor/ColorLiteral.cpp:558-564 | hwb() with blanks between, and a slash before its alpha |
| ColorOffered.ColorPresentations | Source/Editor/ColorLiteral.cpp:782-808 | the loop over the candidates offers what can be written, in order |
| ColorOffered.OfferedJustWhen | Source/Editor/ColorLiteral.cpp:782-808 | a presentation is on the menu if and only if its syntax suits the colour's opacity and the language and writes the colour as that text |
| ColorOffered.PresentationsAreOrdered | Source/Editor/ColorLiteral.cpp:786-794 | the menu goes from the hexadecimal forms to the name, no syntax twice |
| ColorOffered.EveryPresentationIsRead | Source/Editor/ColorLiteral.cpp:782-808 | every text on the menu is scanned as one literal, the whole of it, of the syntax it was offered in |
| FoldBlocks.NormalizeFoldBlocks | Source/Editor/CodeFold.cpp:9-64 | clamped, trimmed, multi-line blocks, strictly sorted, the innermost of each start and no others |
| FoldBlocks.ShapeBlocks | Source/Editor/CodeFold.cpp:11-21 | every block is clamped to the text and its end pulled back over white space |
| FoldBlocks.EraseSingleLine | Source/Editor/CodeFold.cpp:34-36 | exactly the blocks with a line break inside stay |
| FoldBlocks.SortBlocks | Source/Editor/CodeFold.cpp:54 | sorted by start and then end, no block gained or lost |
| FoldBlocks.KeepInnermost | Source/Editor/CodeFold.cpp:55-63 | of each start the block that ends soonest |
| FoldBlocks.ShapingKeepsLaminar | Source/Editor/CodeFold.cpp:11-21 | clamping and trimming keep two nested or disjoint blocks nested or disjoint |
| FoldBlocks.NormalizedKeepsLaminar | Source/Editor/CodeFold.cpp:9-64 | pairwise nested or disjoint blocks stay so |
| FoldBlocks.NormalizedIsUnique | Source/Editor/CodeFold.cpp:9-64 | there is one normal form |
| FoldBlocks.NormalizingIsIdempotent | Source/Editor/CodeFold.cpp:9-64 | normalising twice is normalising once |
| FoldMeaning.ShapedMeans | Source/Editor/CodeFold.cpp:11-21 | a block is cut to the text and its end pulled back over the six white-space characters, no further than its start |
| FoldMeaning.FoldsMean | Source/Editor/CodeFold.cpp:9-64 | a list is the normal form if and only if it ascends and holds exactly the blocks that are a source block cut and pulled back, hold a line break, and are the shortest such with their start |
| FoldDepth.PopClosed | Source/Editor/CodeFold.cpp:136-138 | popping from the top leaves exactly the ends beyond the start |
| FoldDepth.FoldRegionsWithDepth | Source/Editor/CodeFold.cpp:130-143 | the depth of each block is the number of blocks that strictly contain it |
| FoldDepth.OpenEndsAreStacked | Source/Editor/CodeFold.cpp:134-141 | on laminar blocks the open ends never rise towards the top |
| FoldDepth.OpenCountsContaining | Source/Editor/CodeFold.cpp:134-141 | the open ends at a block's start are exactly the blocks containing it |
| FoldDepth.NormalizedIsWalkable | Source/Editor/CodeFold.cpp:9-64 | what NormalizeFoldBlocks makes of laminar blocks may be walked |
| FoldMarkers.FindBlock | Source/Editor/CodeFold.cpp:85-90 | the binary search finds a block if and only if its start is the marker's key |
| FoldMarkers.FoldedBuffer.FoldedLineRanges | Source/Editor/CodeFold.cpp:73-105 | the walk over the markers gives what the collapsed blocks hide, block by block |
| FoldMarkers.FoldedBuffer.ToggleFoldAtLine | Source/Editor/CodeFold.cpp:107-128 | toggles the marker of the first of the largest multi-line blocks opening at the line, or does nothing exactly when none does |
| FoldMarkers.StaleMarkersHideNothing | Source/Editor/CodeFold.cpp:85-90 | markers that are no block's start hide nothing |
| FoldMarkers.TogglingHides | Source/Editor/CodeFold.cpp:73-128 | toggling an unmarked header adds exactly one range, non-empty, from the next line through the line of the block's last byte, and changes no other |
| FoldMarkers.TogglingTwiceRestores | Source/Editor/CodeFold.cpp:125-126 | toggling twice restores the markers if and only if the first toggle did not meet a marker of the other kind |
| FoldMarkers.OutermostIsUnique | Source/Editor/CodeFold.cpp:109-120 | the block a toggle acts on depends on text and line alone |
| FoldMarkers.OutermostMeans | Source/Editor/CodeFold.cpp:109-120 | it is the first of those with the most bytes that start in the line and have a line break in them |
| FoldMarkers.ToggledMeans | Source/Editor/CodeFold.cpp:125-126 | a toggle takes a marker of either kind away or puts a collapsed one, and changes no other |
| FoldMarkers.HidesMeans | Source/Editor/CodeFold.cpp:81-100 | a block hides lines if and only if its marker is a collapsed one and it has a line break in it |
| FoldMarkers.HiddenRangeMeans | Source/Editor/CodeFold.cpp:91-102 | it hides as many lines as it has line breaks, from the one below its first |
| FoldMarkers.OtherMarkersHideNothing | Source/Editor/CodeFold.cpp:82-84 | markers of the other kind hide nothing, whatever the blocks |
| ExitStatus.Application.ReportOnExit | Source/Application.cpp:69-75 | queues a non-empty message |
| ExitStatus.Application.TakeExitReports | Source/Application.cpp:77-80 | drains the queue: drained and queued lines together are all lines ever queued, in order |
| ExitStatus.Application.NoteSaveFailed | Source/Application.cpp:82-95 | latches the failure and queues its line, the reason without a doubled prefix |
| ExitStatus.Application.NoteSaveSucceeded | Source/Application.cpp:96-99 | clears the path |
| ExitStatus.Application.CurrentExitStatus | Source/Application.cpp:101-104 | SaveFailed if and only if the latest outcome of some path is a failure |
| ExitStatus.DetailReads | Source/Application.cpp:82-86 | the reason without the program's own prefix, if it has it |
| ExitStatus.FailureLineReads | Source/Application.cpp:92-93 | the line names the buffer, and behind a colon the reason, if one is left |
| ExitStatus.LatestFailedMeans | Source/Application.cpp:82-104 | a path counts as failed if and only if some failure of it has no later success |
| SaveProtocol.PlansAreSettledOnce | Source/Editor/BufferSave.cpp:118-209 | in an allowed log plans begun are plans finished or abandoned, but for one outstanding |
| SaveProtocol.NeverTwoOutstanding | Source/Editor/BufferSave.cpp:118-209 | between two plans of one buffer the first is settled |
| SaveProtocol.Buffer.BeginSave | Source/Text/Buffer.cpp:310-391 | begins a plan, or refuses for loading, for a save in progress or for want of room |
| SaveProtocol.Buffer.AbandonSave | Source/Text/Buffer.cpp:423-427 | gives the plan up |
| SaveProtocol.Buffer.FinishSave | Source/Text/Buffer.cpp:393-421 | settles the plan as saved |
| SaveProtocol.SaveKeepsProtocol | Source/Editor/BufferSave.cpp:118-209 | from idle one save keeps to the protocol, whatever dispatchers and writes answer |
| SaveProtocol.WriteRemoteBuffer | Source/Editor/BufferSave.cpp:45-77 | the plan is handed over or abandoned, never both |
| SaveProtocol.RunHere | Source/Editor/BufferSave.cpp:187-208 | the synchronous write settles the plan and records its outcome |
| SaveProtocol.OfferToDispatcher | Source/Editor/BufferSave.cpp:163-185 | an accepted plan belongs to the dispatcher; a refused one is abandoned before a fresh one is begun |
| SaveProtocol.SaveRemote | Source/Editor/BufferSave.cpp:147-153 | the remote path |
| SaveProtocol.SaveLocal | Source/Editor/BufferSave.cpp:155-209 | the local path |
| SaveProtocol.WriteBufferToDisk | Source/Editor/BufferSave.cpp:118-209 | one save adds exactly these events to the buffer's log and these outcomes and lines to the exit state; it returns if and only if its last event is a finish or a hand-over, a failed write is thrown on, and a ready local save that is forced or small is written here |
| SaveProtocol.LocalSaveGoes | Source/Editor/BufferSave.cpp:91-209 | a local save that is begun is handed over if and only if it may be, the buffer is large and an installed dispatcher takes it; forced, small or without dispatcher it is written by the call and settled as the write went |
| SaveProtocol.RemoteSaveGoes | Source/Editor/BufferSave.cpp:45-77 | a remote save that is begun is handed over if and only if it may be, a dispatcher takes it and what has to be encoded first can be; the call itself writes nothing |
| SaveProtocol.RefusedSaveDoesNothing | Source/Editor/BufferSave.cpp:118-163 | nothing happens to a buffer without a file, nor to one that is loading, being saved, or has no room for a plan |
| SaveProtocol.WriteIsNoted | Source/Editor/BufferSave.cpp:187-208 | a write by the call is noted as it went: a success, or a failure and its line |
| SaveProtocol.SmallFileIsWrittenHere | Source/Editor/BufferSave.cpp:91-208 | an input: a small file is written here although a dispatcher would take it |
| SaveProtocol.FinishesCounted | Source/Editor/BufferSave.cpp:187-208 | a plan is finished once where the file is written by the call itself, and not otherwise |
| SaveRuns.StepKeepsShelved | Source/Editor/BufferSave.cpp:118-209 | every action leaves the plan settled or with the dispatcher that accepted it |
| SaveRuns.RunsKeepTheProtocol | Source/Editor/BufferSave.cpp:118-209 | safety over every run: no order of saves, settlements, loads and failures breaks the protocol of any buffer |
| SaveRuns.EverySuccessIsAFinishedPlan | Source/Editor/BufferSave.cpp:118-209 | conservation over every run: under each file, plans finished by its buffers are the successes recorded for it |
| SaveRuns.LatestWriteIsKnown | Source/Application.cpp:82-104 | over every run from a fresh start a file counts as failed if and only if its latest write, by whichever buffer, here or by a dispatcher, failed, and not silently in a local dispatcher |
| SaveRuns.EveryFailureIsOneLine | Source/Application.cpp:69-95 | over every run the lines queued are one for each failed write, in the order of the failures, and the lines taken are the first of them |
| SaveRuns.ExitShowsEveryFailure | Source/main.cpp:3919-3921 | an exit that takes the lines last of all shows the line of every failed write |
| SaveRuns.SilentFailureIsForgotten | Source/UI/AsyncFileSaver.cpp:50-89 | a write that failed here is forgotten when the next one fails in the local dispatcher with an exception that says nothing |
| SaveRuns.SettleSave | Source/Editor/Remote/RemoteBuffer.cpp:146-219 | the dispatcher settles the plan and records the outcome |
| SaveRuns.Act | Source/Editor/BufferSave.cpp:118-209 | one action on one buffer does to it, to the outcomes and to the queued lines what the run says |
| SaveRuns.Session | Source/Editor/BufferSave.cpp:118-209 | real buffers and exit state follow the run step by step: the latch, every line ever queued, and the lines taken, so that those still queued are the rest |
| Calendar.TimegmUndoesGmtime | Source/Editor/Backup.cpp:158-205 | gmtime gives real dates of years 0 to 9999 and timegm undoes it |
| Calendar.OrderIsTime | Source/Editor/Backup.cpp:154-165 | real dates are ordered field by field exactly as their seconds are |
| CalendarWalk.EpochIsSecondZero | Source/Editor/Backup.cpp:154-205 | midnight of 1 January 1970 is second 0 |
| CalendarWalk.GmtimeUndoesTimegm | Source/Editor/Backup.cpp:154-205 | gmtime undoes timegm on real dates |
| CalendarWalk.SecondsFollow | Source/Editor/Backup.cpp:154-165 | one second later is the next second of the clock and the calendar: with months of their lengths, a leap day every fourth year but in three centuries of four |
| CalendarWalk.MonthsCarry | Source/Editor/Backup.cpp:196-205 | a month out of range carries: twelve months more are a year more |
| CalendarWalk.FieldsCarry | Source/Editor/Backup.cpp:196-205 | so do days, hours, minutes and seconds |
| VersionNames.StampAt | Source/Editor/Backup.cpp:158-165 | the stamp written for a second |
| VersionNames.NamesSortByTime | Source/Editor/Backup.cpp:154-165 | names sort lexicographically exactly as (second, sequence), for years 0 to 9999 |
| VersionNames.NamesAreDistinct | Source/Editor/Backup.cpp:158-165 | different versions have different names |
| VersionNames.ParsingUndoesNaming | Source/Editor/Backup.cpp:182-205 | ParseVersionTimestamp gives back the second a name was written for |
| VersionNames.ParsesExactly | Source/Editor/Backup.cpp:182-205 | a name is read as a version, and as that time, if and only if it is `v-` and seven numbers of at most 4, 2, 2, 2, 2, 2, 2 characters, each maybe with white space and a sign before it, two hyphens between them, and anything behind |
| VersionNames.PaddedNamesAreWritten | Source/Editor/Backup.cpp:154-205 | of these names the ones in digits of full width, without space or sign, are exactly the names the program writes, with anything behind the sequence number |
| VersionNames.OnlyVersionsParse | Source/Editor/Backup.cpp:182-205 | autosave and sidecar are no versions; a version's leftover temporary file counts as one, and so does `v-1 2 3-4 5 6-7` |
| Backup.SortDescending | Source/Editor/Backup.cpp:276-278 | greatest name first, no name gained or lost |
| Backup.RankIsPosition | Source/Editor/Backup.cpp:276-281 | in the sorted list the names above one are those before it |
| Backup.CollectVersions | Source/Editor/Backup.cpp:247-255 | exactly the regular files whose names parse, each once, in any listing order |
| Backup.Directory.RemoveOld | Source/Editor/Backup.cpp:257-274 | exactly the versions before the cutoff and an old autosave go |
| Backup.Directory.RemoveSurplus | Source/Editor/Backup.cpp:276-282 | of the versions left exactly those past the limit in name order go |
| Backup.Directory.PruneOneDirectory | Source/Editor/Backup.cpp:240-296 | after a prune an entry is there exactly when it is to be kept: a version not too old and among the greatest names, an autosave not too old, anything else; a directory left with only its sidecar is removed |
| Retention.LaterNameIsNotEarlier | Source/Editor/Backup.cpp:154-205 | names of real dates order their times |
| Retention.VersionsAreGenuine | Source/Editor/Backup.cpp:158-165 | what the program writes are such names |
| Retention.NewerSurvives | Source/Editor/Backup.cpp:240-296 | survivors are upward closed in time |
| Retention.RemovedAreOldest | Source/Editor/Backup.cpp:240-296 | no removed version is newer than a kept one |
| Retention.ExactlyTheNewest | Source/Editor/Backup.cpp:276-282 | as many versions survive as are young enough, up to the limit, exactly |
| Retention.PruningIsIdempotent | Source/Editor/Backup.cpp:240-296 | pruning again at the same moment removes nothing more |
| Retention.NextVersionPath | Source/Editor/Backup.cpp:168-180 | the first free sequence number of the second, or 99 when all are taken |
| Retention.NewNameIsNewest | Source/Editor/Backup.cpp:168-180 | the new version sorts behind all others of its second if and only if the numbers taken leave no gap |
| Retention.PruneOpensGap | Source/Editor/Backup.cpp:168-282 | at every second: a prune that leaves one of two versions 00 and 01 removes 00, the next save takes 00, and that sorts before the older 01 |
| Retention.ListBackupVersions | Source/Editor/Backup.cpp:316-347 | the autosave first, then every version once, from the greatest name down |
| Retention.ListedAsMade | Source/Editor/Backup.cpp:332-333 | a version is listed with the time it was made for, not the file's own |
| Retention.ListedNewestFirst | Source/Editor/Backup.cpp:336-340 | listed versions are newest first |
| Retention.Pruner.MaybePrune | Source/Editor/Backup.cpp:479-490 | prunes exactly when an hour has passed since the last prune; any two prunes lie 3600 seconds apart |
| Retention.KeptByAge | Source/Editor/Backup.cpp:257-265 | without a limit on their number, versions stay if and only if they are at most 86400 seconds old for each day of the limit |
| Retention.OthersByAge | Source/Editor/Backup.cpp:267-272 | the autosave goes by the same age; what is neither stays |
| LspFrames.ReadFront | Tools/lsp-capability-probe.py:252-264 | a message taken off the buffer makes it shorter, so the inner loop ends |
| LspFrames.Collect | Tools/lsp-capability-probe.py:238-273 | the reading loop computes the reader's state for every sequence of chunks |
| LspFrames.LengthReads | Tools/lsp-capability-probe.py:254-257 | the header that `send` writes gives its length back |
| LspFrames.FrameReads | Tools/lsp-capability-probe.py:209-215 | a whole frame is one message and leaves what follows it |
| LspFrames.PartReads | Tools/lsp-capability-probe.py:252-260 | less than a frame is no message yet |
| LspFrames.PrefixDrains | Tools/lsp-capability-probe.py:252-264 | any beginning of a stream of frames drains to exactly the complete frames |
| LspFrames.ChunksDoNotMatter | Tools/lsp-capability-probe.py:238-273 | however a stream is cut into chunks and however much has arrived: exactly the complete bodies are decoded, in order, and a proper part of the next frame is kept |
| LspFrames.AllFramesDecoded | Tools/lsp-capability-probe.py:209-273 | everything sent is decoded once everything has arrived |
| LspHeads.FirstLengthCounts | Tools/lsp-capability-probe.py:258-267 | of a head of any fields the first that begins with the name in any letter case decides: so many bytes are the body, and fewer are no message yet |
| LspHeads.NegativeLengthCounts | Tools/lsp-capability-probe.py:263-267 | a negative length leaves so many bytes at the end, as Python slices do |
| LspHeads.HeadWithoutLengthStops | Tools/lsp-capability-probe.py:260-262 | a head without such a field ends the reading |
| LspHeads.BadLengthStops | Tools/lsp-capability-probe.py:263 | so does a length with a character in it that no number has |
| LspHeads.NothingAfterAStop | Tools/lsp-capability-probe.py:252-273 | what came before such a head has been decoded, nothing behind it is, and nothing that comes later |
| LspHeads.EndOfPipeCloses | Tools/lsp-capability-probe.py:249-251 | at the end of the pipe everything sent has been decoded, and nothing later is |
| AutoPair.FirstByOpen | Source/Editor/AutoPair.cpp:28-35 | the entry found for an opener is the first that has it |
| AutoPair.FirstByClose | Source/Editor/AutoPair.cpp:37-44 | the entry found for a closer is the first that has it |
| AutoPair.TypingIsFaithful | Source/Editor/AutoPair.cpp:119-176 | whatever is paired, skipped or highlighted: before the point stands exactly what was typed |
| AutoPair.BalancedTyping | Source/Editor/AutoPair.cpp:119-176 | the beginning of a balanced word leaves what was typed before the point and the pending closers in stack order after it |
| AutoPair.BalancedWordIsPlain | Source/Editor/AutoPair.cpp:119-176 | a complete balanced word gives the same text as plain typing |
| AutoPair.BackspaceUndoes | Source/Editor/AutoPair.cpp:178-189 | backspace undoes a keystroke if and only if it opened a pair, or was plain and forms no pair with what follows |
| AutoPair.QuoteTyped | Source/Editor/AutoPair.cpp:139-160 | a typed quote is plain in a string or comment; else it skips the same quote, is plain behind a word or before what no string can stand before, and opens a pair otherwise |
| AutoPair.SelectionTyped | Source/Editor/AutoPair.cpp:125-136 | a selection is wrapped if and only if what is typed opens a pair |
| AutoPair.DefaultBrackets | Source/Editor/AutoPair.cpp:72-81 | the default table's three brackets are such brackets |
| HighlightSweep.VisitCurrent | Source/Editor/Grammar/QueryMatcher.cpp:1192-1204 | a node is reported, and may be descended into, exactly if it intersects the window |
| HighlightSweep.MoveOn | Source/Editor/Grammar/QueryMatcher.cpp:1228-1246 | one cursor move to first child, next sibling or parent leaves reported and remaining captures together the same, and comes nearer to the end |
| HighlightSweep.WalkTree | Source/Editor/Grammar/QueryMatcher.cpp:1214-1249 | the cursor loop ends and reports exactly what the pruned walk of the tree does, in pre-order |
| HighlightSweep.CapturesInRange | Source/Editor/Grammar/QueryMatcher.cpp:1583-1589 | a window without bytes has no captures, any other those of the walk |
| HighlightSweep.WalkFinds | Source/Editor/Grammar/QueryMatcher.cpp:1181-1249 | the pruning walk reports exactly the captures that overlap the window and all of whose enclosing nodes do |
| HighlightSweep.HiddenAtStart | Source/Editor/Grammar/QueryMatcher.cpp:1181-1190 | of the captures that start in a window exactly those are not reported that are empty, stand where it begins and end a node with bytes |
| HighlightSweep.HighlightSweepChunk | Source/Editor/ChunkedHighlight.cpp:7-17 | appends exactly the window's captures that start in it, and returns its end |
| HighlightSweep.ChunkTakes | Source/Editor/ChunkedHighlight.cpp:7-17 | a chunk adds exactly the captures that start in it, each once, but for empty ones that end a node where it begins |
| HighlightSweep.Sweep | Source/Editor/ChunkedHighlight.cpp:7-17 | the sweep ends and accumulates, each once, exactly the captures that start before the end and are not such a token at a chunk's beginning, for every chunk size above zero |
| HighlightSweep.SweepLosesOnlyMissed | Source/Editor/ChunkedHighlight.cpp:7-17 | what a sweep takes and what it misses are together the whole document's captures, each once; missed are those at the text's end or later and empty ones that end a node where a chunk begins |
| HighlightSweep.SweepIsWholeCall | Source/Editor/ChunkedHighlight.cpp:7-17 | the sweep gives what one whole-document call gives if and only if no capture starts at the text's end or later and no empty one ends a node with bytes at a multiple of the chunk size |
| HighlightSweep.NonEmptyCapturesAreSwept | Source/Editor/ChunkedHighlight.cpp:7-17 | so for non-empty captures within the text it always does, whatever the tree and the chunk size |
| HighlightSweep.MissingTokenIsLost | Source/Editor/Grammar/QueryMatcher.cpp:1181-1206 | a missing token that ends a statement is reported to the whole-document call, and to the sweep exactly if it stands neither at the text's end nor at a multiple of the chunk size |

## Left out

- Source/main.cpp, widgets, overlays, panels and their callbacks: composition without algorithms of their own.
- Terminal output itself, the Notcurses probes and the iTerm escape code: only the byte and character sequences of the encoders are modelled.
- On/off settings, command-line options, clipboard, subprocesses, sockets and environment lookup: one-branch facts or I/O.
- Floating-point rounding of `double`, locale effects, and printf beyond `%d` and `%.nf` of non-negative values.
- ColorFormat.FormatColor: the `Unknown` syntax, which is always declined, is not among the modelled ones.
- NamedColors.LookupNamedColor: the 149 CSS entries are not copied; the table is any table sorted by name, of lower-case words, that holds `transparent`.
- DecimalText.ParseNumber: the words `inf` and `nan`, hexadecimal floats and out-of-range errors of std::from_chars are not read.
- ColorTokens.ParseAngle: the factor from radians to degrees is a decimal constant.
- Buffer contents, undo and the language query engine: discovery, folding and highlighting take what these report as given, within the text.
- SaveRuns.SettleSave: a buffer closed while its save is under way has no plan left to settle; only its exit status would be recorded.
- SaveProtocol.WriteBufferToDisk: what is written (line endings, trimming, charset, the backup before the write) is not part of the plan's life; dispatchers do not throw.
- VersionNames.VersionFileName: years beyond 9999, where the year field grows, and before year 0.
- Backup.Directory.PruneOneDirectory: failures of single file operations and the memo of the last autosave; an entry called `autosave` is taken to be removable.
- Writing backups and autosaves, the file name hash, and the listing's local time labels.
- LspFrames.Collect: JSON decoding, the registrations in it and the replies; what ends the program with a traceback ends the reading here.
- LspFrames.START: the bytes left over from the initialise exchange are not carried into the loop.
- AutoPair.Type: wrapping a selection, and graphemes that merge with a neighbour when typed; text is a sequence of single graphemes.
- HighlightSweep.Walk: which patterns match at a node is taken as given; the order in which a window's captures come, the merging of captures of one range into one span, and regions in an embedded language, which are parsed per window, are not part of it.
- Completion merging and the Unicode table generator: they would only add easier members.
