# A verified model of an X11 server

This project models the parts of the X server that keep its state by hand: the window tree
with its pointers, the connection machine, resources with shared ownership, the rectangle
algorithms and the two ciphers of the C library that comes with it. Everything that the C
code does by changing structs is modelled by classes and methods; what these compute is
stated by functions, and what is promised is proved of the functions.

The files follow the server:

- `WindowShape`, `WindowRuns`: the tree as a value, and what requests do to it.
- `WindowLinks`, `WindowTree`: Parent, PrevSibl, NextSibl, StackBot and StackTop as memory, and
  the requests that rewire it. `WindowDestroy` and `WindowWalk` hold the loops that walk the
  tree without a stack.
- `WindowRoute`, `RouteLimit`, `Crossing`: the way between two windows, when it is too long, and the
  Enter and Leave events.
- `FrameSpec`, `Connection`, `ClientStream`: a parser of a whole byte stream, the machine that reads
  the stream in pieces, and the stream as a client writes it.
- `Output`: the output buffer.
- `Pool`, `Rotate`, `Property`: resource pools, rotation of properties, and property data.
- `Pixmap`: references to pixmaps and the ring of open handles.
- `Selection`, `AtomOrder`, `Atom`: selections and the sorted index of atoms.
- `ClipBand`, `ClipSweep`, `ClipRows`, `ClipChildren`: the sweep that cuts children out of a clip, band
  by band, as a whole, seen row by row, and as a program. `CopyArea`, `Tiling`: the division of a copy, and tiling.
- `Des`, `DesMode`, `Md5`: the ciphers. `Basics`, `Bytes` and `Modular` are shared.

Where the model shows that the code does not do what it is meant to do, it follows the code. One
member states exactly when the result is right, another shows an input for which it is not:

| what goes wrong | exactly when | input |
|---|---|---|
| RotateProperties turns the wrong way for negative counts | `Rotate.DeltaExact` | `Rotate.DeltaExample` |
| GetProperty overflows when it asks for everything behind an offset | `Property.LenExact` | `Property.LenExample` |
| GetProperty deletes a property without data although the type does not match | `Property.DeleteExact` | `Property.DeleteExample` |
| names that differ only behind a NUL are one atom | `Atom.Atoms.GetTwo` with `AtomOrder.SamePlain` | `AtomOrder.SameExample` |
| the search for an atom goes the wrong way | `AtomOrder.DirExact` | `AtomOrder.DirExample` |
| clip_children returns too much or too little | `ClipSweep.SweepExact`, `ClipRows.OrderlyRows` | `ClipChildren.OverlapExample` |
| the padding of a reply leaves the buffer | `Output.OverrunExact` | `Output.OverrunAfterOddWrite` |
| decrypting nothing in CBC mode loses the vector | `DesMode.EmptyDecryption` | `DesMode.EmptyExample` |
| a graphics context copied to itself frees the pixmap it holds | `Pixmap.CopyExact` | `Pixmap.SelfCopyExample`, `Pixmap.SelfCopyFrees` |
| an insertion writes behind the index of atoms | `Atom.SpillExact`, `Atom.SpillsUnnoticed` | `Atom.SpillExample` |
| RotateProperties divides by zero | `Rotate.Properties.Rotate` | the empty list |
| the root is not told of a pointer that comes from or leaves for no window | `Crossing.EntryExact`, `Crossing.ExitExact` | `Crossing.RootExample` |
| a pointer outside of all windows leaves with wrong details | `Crossing.OutsideExact` | `Crossing.RootExample` |
| the way between two windows of depth below 32 does not fit | `WindowRoute.FitsExact` | `RouteLimit.TooLong` |

## Model

| member | source | states |
|---|---|---|
| `WindowShape.UniqueParent` | src/window.c:1116-1132 | a window is in exactly one child list, and never among its own ancestors: no cycles |
| `WindowShape.PathDistinct` | src/window.c:1655-1697 | the way from any window to the root meets no window twice |
| `WindowRuns.Run` | src/window.c:896-942 | after any list of create, raise, lower, reparent and destroy requests there is still one acyclic tree under the same root |
| `WindowRuns.AddChildKeeps` | src/window.c:1116-1132 | a new window on top of its parent's children keeps the tree |
| `WindowRuns.CirculateKeeps` | src/window.c:896-942 | raising or lowering only permutes one child list and keeps the tree |
| `WindowRuns.CirculateOrder` | src/window.c:896-942 | the window goes to the top or the bottom of its list, all others keep their order, and no other list or path changes |
| `WindowRuns.ReparentKeeps` | src/window.c:1655-1697 | reparenting keeps the tree because the new parent is not below the window |
| `WindowRuns.PruneKeeps` | src/window.c:744-873 | cutting off a subtree leaves a tree of exactly the other windows |
| `WindowRuns.PrunedTwice` | src/window.c:780-873 | cutting off an inferior first and the window later is cutting off the window |
| `WindowRuns.AddedPruned` | src/window.c:1140-1148 | deleting a window that was just created gives the tree there was before |
| `WindowLinks.PointersAgree` | src/window.c:896-942 | PrevSibl and NextSibl of neighbours point at each other, under the same Parent |
| `WindowLinks.EndsAgree` | src/window.c:896-942 | StackTop and StackBot are the true ends: NextSibl is NULL exactly for the one, PrevSibl for the other |
| `WindowLinks.UnlinkKeeps` | src/window.c:854-861 | the unlinking statements spell out the child lists without the window, every other list untouched |
| `WindowLinks.OnTopKeeps` | src/window.c:1116-1132 | the linking statements append a loose window to one child list, every other list untouched |
| `WindowLinks.OnBottomKeeps` | src/window.c:933-935 | the same at the bottom of a list |
| `WindowLinks.ParentPointers` | src/window.c:1116-1132 | Parent pointers climb the path and end at the root |
| `WindowLinks.StackEnds` | src/window.c:896-942 | a window has no next sibling exactly when raising would change nothing, and no previous one exactly when lowering would change nothing |
| `WindowTree.Tree.Circulate` | src/window.c:896-951 | pointers after the call spell out the raised or lowered tree, and a notification is due exactly when the order changed |
| `WindowTree.Tree.Create` | src/window.c:1057-1152 | which of the replies is given, on success one new topmost child in tree, pointers and owner's pool; without an AES window everything is as before, but for a DestroyNotify |
| `WindowTree.Tree.IsInferior` | src/wind_util.c:164-176 | true exactly for the window itself and its inferiors |
| `WindowTree.Tree.Reparent` | src/window.c:1640-1697 | which reply is given, an unchanged tree on every error, and otherwise the moved subtree on top of the new parent |
| `WindowTree.Tree.Remove` | src/window.c:851-862 | one window without children leaves tree, pointers and pool |
| `WindowTree.Tree.Destroy` | src/window.c:718-873 | the loop ends; exactly the subtree is gone from tree, pointers and pools, and DestroyNotify is logged in the order Post |
| `WindowTree.Tree.Play` | src/window.c:718-1697 | after any list of the five requests the pointers spell out the tree of WindowRuns.Run |
| `WindowDestroy.PostMembers` | src/window.c:744-873 | the logged windows are exactly the window and its inferiors |
| `WindowDestroy.PostOrder` | src/window.c:744-873 | each window is logged once, and all its inferiors before it |
| `WindowWalk.VisitAll` | src/window.c:126-172 | the walk without a stack visits the windows in recursive preorder |
| `WindowWalk.PreorderComplete` | src/window.c:126-172 | that order has every window of the tree exactly once |
| `WindowWalk.PreOrdered` | src/window.c:126-172 | and every window after its ancestors |
| `WindowWalk.PreMembers` | src/window.c:613-662 | a walk restricted to some child lists reaches exactly what those lists connect to its start |
| `WindowWalk.SetMapped` | src/window.c:613-662 | the walk that skips what is unmapped or InputOnly ends and refines the recursive definition |
| `WindowWalk.NotifiedExactly` | src/window.c:621-660 | notified are, once each, exactly the selecting inferiors for which every window between them and the mapped one, both included, is mapped and InputOutput |
| `WindowRoute.LcaLeast` | src/wind_util.c:195-246 | the turning point is a common ancestor, and every common ancestor is above it |
| `WindowRoute.MeetStack` | src/wind_util.c:221-243 | climbing from the end stops exactly at the turning point |
| `WindowRoute.PathStack` | src/wind_util.c:195-246 | for depths that satisfy that inequality the array holds beg, ..., least common ancestor, ..., end, and anc is the place of the turn |
| `WindowRoute.FitsExact` | src/wind_util.c:195-246 | the arrays of 32 entries hold everything that is stored in them exactly when the depths of the windows and of their least common ancestor satisfy an inequality; also for a missing window |
| `RouteLimit.TooLong` | src/wind_util.c:195-246 | for two chains of n windows under the root, n + 1 being the depth, that is so exactly for n up to 15 |
| `Crossing.LeaveChain` | src/event.c:522-531 | the first loop leaves exactly the windows before the turn, with coordinates relative to each |
| `Crossing.EnterChain` | src/event.c:535-544 | the second loop enters exactly the windows behind it, with coordinates relative to each |
| `Crossing.OriginSums` | src/wind_util.c:79-99 | the origin of a window is the sum of the positions on its path, in each coordinate |
| `Crossing.TellFrom` | src/event.c:514-556 | an event is told exactly for the listed windows that select its kind, with that detail and the pointer counted from the window's corner |
| `Crossing.ToldIsPrescribed` | src/event.c:481-558 | both halves together are the sequence of section 11 of the X11 protocol: inferior, ancestor and nonlinear case |
| `Crossing.ToldIsEntry` | src/event.c:481-558 | the pass tells the windows below the root when the pointer comes from no window |
| `Crossing.EntryExact` | src/event.c:490-505 | that is what section 11 of the X11 protocol asks for exactly when the root does not select EnterNotify |
| `Crossing.ToldIsExit` | src/event.c:509-531 | what the pass tells when the pointer leaves for no window, over a foreign window or outside of all |
| `Crossing.ExitExact` | src/event.c:509-531 | over a foreign window that is what section 11 asks for exactly when the root does not select LeaveNotify |
| `Crossing.OutsideExact` | src/event.c:509-531 | outside of all windows exactly when no window from the old one up to the root selects it |
| `Crossing.RootExample` | src/event.c:481-558 | a tree of the root alone for which all three differ |
| `Crossing.ToldProper` | src/event.c:481-558 | an event is told exactly when its window selects it, it leaves what contains the start and not the target or enters what contains the target and not the start, or one of the two themselves, its detail is the one for that place and its coordinates are the pointer's from that window's corner; leaves first, each window once, inside out and outside in |
| `Crossing.EvntPointer` | src/event.c:481-558 | the log is that, for any start and target, also missing ones; between windows it is the sequence of section 11, else ServerEntry or ServerExit |
| `Crossing.WindPointerPos` | src/wind_util.c:79-99 | the pointer minus the origin of the window, or of the root for no window |
| `Crossing.Grab` | src/wind_grab.c:56-65 | PathStack and EvntPointer joined: the events due between the window that had the pointer and the new one |
| `FrameSpec.HeadStable` | src/Request.c:24-142 | once the head of a stream is decided more bytes do not change it |
| `FrameSpec.ParseAppend` | src/Request.c:24-142 | parsing a stream in two parts gives what parsing it at once gives |
| `FrameSpec.SendParse` | src/Request.c:24-142 | the parser returns every list of valid requests as it was sent, in either byte order, numbered modulo 65536 |
| `Connection.Client.ServerOrder` | src/Request.c:128-130 | the header fields in the server's byte order |
| `Connection.Client.PrefixOrder` | src/clnt.c:139-146 | the same for the connection setup |
| `Connection.Client.Init` | src/clnt.c:130-164 | after the setup prefix the machine waits for exactly the bytes the parser needs, or has ended as the parser says |
| `Connection.Client.Auth` | src/clnt.c:78-120 | a complete setup is consumed and the machine waits for the first request |
| `Connection.Client.Select` | src/Request.c:48-142 | after a request header the machine has dispatched, failed or waits exactly as the parser says |
| `Connection.Client.ReadBody` | src/clnt.c:203-214 | the same while the body arrives |
| `Connection.Client.Read` | src/clnt.c:194-215 | for any number of bytes a read delivers: log, stage and pending bytes are those of the parser, no byte is lost, Done+Left stays in the buffer, and waiting bytes are taken |
| `Connection.Client.Delivered` | src/Request.c:24-142 | in every reachable state the dispatched requests are those of the whole-stream parser |
| `Connection.Serve` | src/clnt.c:194-215 | reading until nothing is left or the connection ended terminates and has dispatched exactly the requests of the whole stream, for every way the reads split it |
| `Connection.Session` | src/clnt.c:194-215 | the same when the bytes arrive in any pieces between the reads |
| `ClientStream.StreamParse` | src/clnt.c:130-164 | what a client writes in either byte order, its byte order, version, both authorization strings with their padding and any requests, is parsed as exactly those requests, numbered from 1, their lengths in the server's order and all other bytes as sent |
| `ClientStream.SetupRefused` | src/clnt.c:130-155 | a setup is refused exactly without a byte order or with another version than 11 |
| `ClientStream.StreamEnds` | src/Request.c:48-142 | the stream ends at an extension request or one of length zero, and all requests before it have arrived |
| `ClientStream.Connect` | src/clnt.c:130-215 | a client that connects and sends requests has exactly these dispatched, in whatever pieces the bytes come |
| `Connection.FragmentationIndependent` | src/Request.c:24-142 | two clients that received the same bytes, however split, dispatched the same requests with the same numbers |
| `Output.Buffer.ClntOutBuffer` | src/clnt.c:440-485 | compaction or growth keeps the pending bytes and the bytes of a reply under construction; which case is taken when |
| `Output.Buffer.Reserve` | include/clnt.h:140-150 | there is room behind the pending bytes, without growth whenever the buffer suffices |
| `Output.Buffer.Commit` | src/clnt.c:488-550 | what is committed is what was built behind the pending bytes, padded to four |
| `Output.Buffer.Send` | src/event.c:248-258 | a message of any size is appended once and whole with its padding or not at all, when the padding fits; written followed by pending is committed, Done+Left <= Size |
| `Output.Buffer.Drain` | src/clnt.c:222-259 | a partial write moves exactly that many bytes from pending to written |
| `Output.OverrunExact` | src/clnt.c:488-516 | the padding of a reply leaves the buffer exactly when the size is no multiple of four and fewer bytes than the padding stay free at the place the reservation finds, in terms of Done, Left, Size before it |
| `Output.AlignedFits` | src/clnt.c:488-516 | never when the pending bytes begin and end at multiples of four |
| `Output.Play` | src/clnt.c:222-259 | after any run of messages and partial writes, written followed by pending is the accepted messages in order, if all sizes or all writes are multiples of four; only want of memory refuses a message |
| `Output.OverrunAfterOddWrite` | src/clnt.c:488-516 | a run after which the padding does not fit: a write of an odd number of bytes |
| `DesMode.DecryptEncrypt` | mintlib/crypt/des_impl.c:564-636 | decryption undoes encryption in both modes for every vector and any number of blocks |
| `DesMode.EncryptDecrypt` | mintlib/crypt/des_impl.c:564-636 | and encryption undoes decryption |
| `DesMode.EncryptedAt` | mintlib/crypt/des_impl.c:584-607 | block i of the cipher text is the cipher of the plain block combined by exclusive or with the cipher block before it or the vector, in ECB mode of the plain block |
| `DesMode.DecryptedAt` | mintlib/crypt/des_impl.c:608-636 | block i of the plain text is decrypted first and combined then |
| `DesMode.CiphersAreDes` | mintlib/crypt/des_impl.c:469-561 | and the two ciphers are the sixteen rounds of DES, up and down the schedule |
| `DesMode.EncryptSplit` | mintlib/crypt/des_impl.c:564-636 | encryption in two calls with the carried vector is encryption in one |
| `DesMode.DecryptSplit` | mintlib/crypt/des_impl.c:564-636 | decryption in two calls is decryption in one when the first piece is not empty |
| `DesMode.EmptyDecryption` | mintlib/crypt/des_impl.c:608-636 | an empty first piece loses the vector: harmless exactly in ECB, before nothing, or for a zero vector |
| `DesMode.EmptyExample` | mintlib/crypt/des_impl.c:608-636 | a vector and a block for which it is not, with every key |
| `DesMode.EncryptBytes` | mintlib/crypt/des_impl.c:584-607 | the encrypting loop over the buffer, and the vector it leaves |
| `DesMode.DecryptBytes` | mintlib/crypt/des_impl.c:608-636 | the decrypting loop over the buffer, and the vector it leaves |
| `DesMode.DesCrypt` | mintlib/crypt/des_impl.c:564-642 | buffer and vector after _des_crypt in either direction and mode; the vector is the last block of cipher text, written or read |
| `DesMode.BufferRoundTrip` | mintlib/crypt/des_impl.c:564-642 | byte buffers come back from encryption and decryption in either order, for every key schedule |
| `DesMode.BufferSplit` | mintlib/crypt/des_impl.c:564-642 | byte buffers may be processed in two pieces, and the vector after the second is that of one call |
| `DesMode.OctetsBlocks` | mintlib/crypt/des_impl.c:305-313 | loading words from bytes undoes storing them |
| `DesMode.LoadBytes` | mintlib/crypt/des_impl.c:305-308 | the first of four bytes has the lowest eight bits |
| `DesMode.BlockAt` | mintlib/crypt/des_impl.c:588-591 | block i is made of the bytes from 8 i on, four for each word |
| `DesMode.BlocksOctets` | mintlib/crypt/des_impl.c:305-313 | and the other way round |
| `Des.PermutationsInverse` | mintlib/crypt/des_impl.c:484-555 | the final permutation undoes the initial one and the other way round |
| `Des.Perm4Twice` | mintlib/crypt/des_impl.c:354-356 | PERM_OP with shift 4 is an involution |
| `Des.Perm16Twice` | mintlib/crypt/des_impl.c:354-356 | PERM_OP with shift 16 is an involution |
| `Des.Perm2Twice` | mintlib/crypt/des_impl.c:354-356 | PERM_OP with shift 2 is an involution |
| `Des.Perm8Twice` | mintlib/crypt/des_impl.c:354-356 | PERM_OP with shift 8 is an involution |
| `Des.Perm1Twice` | mintlib/crypt/des_impl.c:354-356 | PERM_OP with shift 1 is an involution |
| `Des.RoundsCancel` | mintlib/crypt/des_impl.c:469-561 | the sixteen rounds with the schedule read backwards undo the rounds, whatever the round function is |
| `Des.BlocksCancel` | mintlib/crypt/des_impl.c:469-561 | decrypting undoes encrypting of one block and the other way round |
| `Des.BeginLeft` | mintlib/crypt/des_impl.c:314-327 | bit by bit, the initial permutation collects the even bits of the eight bytes into one half, one place up |
| `Des.BeginRight` | mintlib/crypt/des_impl.c:314-327 | and the odd ones into the other |
| `Des.FIsGroups` | mintlib/crypt/des_impl.c:382-393 | the round function joins table j at the six bits from place 4 j on of the half block combined with one of two schedule words, for all eight overlapping groups |
| `Des.AnyIsOr` | mintlib/crypt/des_impl.c:386-393 | joined means or |
| `Des.MixIsXor` | mintlib/crypt/des_impl.c:383-386 | and combined means exclusive or |
| `Des.RoundsForward` | mintlib/crypt/des_impl.c:518-522 | the unrolled loop is the sequence of Feistel rounds with the schedule read upwards |
| `Des.RoundsBackward` | mintlib/crypt/des_impl.c:526-530 | the other one reads it downwards |
| `Des.DesIsUnique` | mintlib/crypt/des_impl.c:469-561 | what these rounds prescribe is one block, the one the two directions of the cipher compute |
| `Des.DesEncrypt` | mintlib/crypt/des_impl.c:469-561 | in place: the permuted result is what sixteen such rounds make of the permuted block, the halves exchanged |
| `ClipChildren.SortChildren` | src/wind_draw.c:71-93 | the list is sorted by top and left edge and is a permutation of the children |
| `ClipChildren.Scan` | src/wind_draw.c:116-129 | a band has the rectangles that begin at or above its first row, and ends with the first of them or above the next one |
| `ClipChildren.HiddenUnder` | src/wind_draw.c:45-55 | hidden are exactly the pixels of which some pixel of a mapped child's inside is no further away than its border is wide |
| `ClipChildren.Gather` | src/wind_draw.c:40-63 | the gathered rectangles are nonempty, in the clip, and cover exactly the clip's pixels hidden by a mapped child |
| `ClipChildren.Row` | src/wind_draw.c:130-168 | what stays in the list is exactly what reaches below the band, in order; the areas are those left by its own rectangles and as many following ones as were removed from the middle of the list |
| `ClipBand.FreeShape` | src/wind_draw.c:130-168 | the areas emitted for a band are nonempty, apart and in the band, whatever is seen |
| `ClipBand.FineExact` | src/wind_draw.c:130-168 | they are exactly the columns without a rectangle of the band if and only if no rectangle reaches into a gap found before it and no following one sticks out to the right |
| `ClipChildren.Sweep` | src/wind_draw.c:95-196 | the loop ends, and emits the areas of all bands |
| `ClipSweep.AreasShape` | src/wind_draw.c:95-196 | these are nonempty, pairwise disjoint and inside the clip for any rectangles |
| `ClipSweep.SweepExact` | src/wind_draw.c:95-196 | and exactly the clip minus the rectangles if and only if all bands are as FineExact says |
| `ClipRows.OrderlyRows` | src/wind_draw.c:95-196 | which is so if and only if in every row no rectangle reaches into a gap between those before it, and no later one sticks out to the right of a row in which as many ended |
| `ClipSweep.LayeredOrderly` | src/wind_draw.c:95-196 | which holds when any two vertical extents are equal or disjoint |
| `ClipChildren.ClipAway` | src/wind_draw.c:34-209 | for any children: no pixel is in two areas or outside of the clip, and the areas are exactly the pixels outside of all mapped children and their borders if and only if every row of the sorted children is tidy, so for equal or disjoint vertical extents |
| `ClipChildren.OverlapExample` | src/wind_draw.c:34-209 | two children with overlapping extents for which clip_children does not return the clip minus the children |
| `Md5.CounterAdds` | mintlib/crypt/md5.c:290-292 | the two-word counter carries correctly modulo 2^64 |
| `Md5.BitCount` | mintlib/crypt/md5.c:124-127 | the two stored words are the 64-bit bit count, low order first, of section 3.2 of RFC 1321 |
| `Md5.PaddedIs` | mintlib/crypt/md5.c:107-133 | the padded message is the message, the byte 0x80, the fewest zeros, and eight bytes with the length in bits modulo 2^64, low-order byte first |
| `Md5.InitIs` | mintlib/crypt/md5.c:71-79 | the bytes of the four start words of section 3.3 of RFC 1321 |
| `Md5.FoldOne` | mintlib/crypt/md5.c:272-428 | one block is compressed once |
| `Md5.PaddedSplit` | mintlib/crypt/md5.c:107-133 | padding what is buffered finishes the message as section 3.1 of RFC 1321 pads it |
| `Md5.Context.ProcessBlock` | mintlib/crypt/md5.c:272-428 | the compression function folded over all 64-byte blocks, and the counter advanced |
| `Md5.Context.ProcessBytes` | mintlib/crypt/md5.c:214-257 | the context stands for the message with the data appended; buflen stays at most 64 and writes inside 128 bytes |
| `Md5.Context.Finish` | mintlib/crypt/md5.c:107-133 | the digest is that of the whole padded message |
| `Md5.DigestOfPieces` | mintlib/crypt/md5.c:107-257 | any split into pieces gives the digest of the concatenation |
| `Pool.InsertRefines` | src/xrsc.c:105-124 | insertion keeps every struct in the bucket of its id and extends the map |
| `Pool.InsertExact` | src/xrsc.c:105-124 | and does so exactly when the id is new |
| `Pool.RemoveRefines` | src/xrsc.c:148-192 | removal takes exactly one struct out of its chain and out of the map |
| `Pool.RenameRefines` | src/Property.c:536-537 | a struct outside the pool may change its id |
| `Pool.Pool.Insert` | src/xrsc.c:105-124 | the pool refines the map with one more entry |
| `Pool.Pool.Search` | src/xrsc.c:208-229 | finds the struct of an id exactly when the map has one |
| `Pool.Pool.Remove` | src/xrsc.c:148-192 | tells whether the struct was there, and removes it from the map if so |
| `Rotate.DeltaExact` | src/Property.c:482 | the place (i + delta) mod n is the one the protocol asks for exactly when the count is not negative, or n divides 65536 or the count |
| `Rotate.DeltaExample` | src/Property.c:482 | three names and the count -1, for which it is not |
| `Rotate.SourceTarget` | src/Property.c:509 | moving along the list is a permutation for every delta |
| `Rotate.Properties.Collect` | src/Property.c:501-528 | the first unacceptable name decides the error; without one every struct is found at its new place |
| `Rotate.Properties.Rotate` | src/Property.c:466-551 | an empty list, and only that, divides by zero; else value I goes to name (I + delta) mod N and nothing else changes; on any error nothing changes; the pool still refines a map |
| `Pixmap.LiveExactly` | src/pixmap.c:81-105 | the existing pixmaps are exactly those with a name or a holder, the orphans those with holders only |
| `Pixmap.FewOpen` | src/pixmap.c:109-142 | at most sixteen handles are open |
| `Pixmap.CopyExact` | src/gcontext.c:504-528 | the source of a copied field survives freeing the destination's exactly when the fields differ or another reference exists |
| `Pixmap.Pixmaps.VdiCls` | src/pixmap.c:66-77 | closing a handle empties its slot of the ring |
| `Pixmap.Pixmaps.Vdi` | src/pixmap.c:109-142 | returns an open handle, or aborts and changes nothing; a new one is opened, at most the seventeenth, then the one in the next slot is closed and the slot taken; afterwards Vdi > 0 exactly for what the ring holds |
| `Pixmap.Pixmaps.Create` | src/pixmap.c:309-348 | which of the four replies is given, ids of windows included, and on success a pixmap with one reference |
| `Pixmap.Pixmaps.FreeNamed` | src/pixmap.c:87-100 | the id is gone; the pixmap is freed exactly when nothing holds it, else orphaned with its handle closed |
| `Pixmap.Pixmaps.FreePixmap` | src/pixmap.c:352-365 | the same for the request, with its error |
| `Pixmap.Pixmaps.FreeHeld` | src/pixmap.c:101-104 | the last reference frees the pixmap, which then is always found among the orphans |
| `Pixmap.Pixmaps.Share` | include/pixmap.h:71-76 | one more holder, one more reference |
| `Pixmap.Pixmaps.Setup` | src/gcontext.c:191-328 | tile, stipple and clip-mask replaced up to the first error, all references exact |
| `Pixmap.SetUpIs` | src/gcontext.c:191-328 | field by field: the components before the first wrong one hold what they name, the others what they held, and no other graphics context changes |
| `Pixmap.SetUpError` | src/gcontext.c:191-328 | which error it is |
| `Pixmap.Pixmaps.CreateGC` | src/gcontext.c:363-424 | replies and holders of a new graphics context |
| `Pixmap.Pixmaps.ChangeGC` | src/gcontext.c:428-468 | the old clip-mask or list goes before anything can fail; all references exact |
| `Pixmap.Pixmaps.CopyGC` | src/gcontext.c:471-528 | the copied holders, the list of the destination dropped; all references exact |
| `Pixmap.CopiedAllIs` | src/gcontext.c:504-528 | field by field: what is copied holds what the source held, or nothing, and every other field what it held |
| `Pixmap.SelfCopyExample` | src/gcontext.c:504-508 | a run of CreatePixmap, CreateGC and FreePixmap after which a graphics context must not be copied to itself |
| `Pixmap.SelfCopyFrees` | src/gcontext.c:504-508 | what the first step of that copy does then: the field names a pixmap that is gone |
| `Pixmap.Pixmaps.SetClipRectangles` | src/gcontext.c:586-631 | replies; the list replaces mask or list, an empty one included |
| `Pixmap.Pixmaps.DeleteGC` | src/gcontext.c:28-39 | no holder of a deleted graphics context remains |
| `Selection.NoneLeft` | src/selection.c:43-61 | stopping at a count of zero leaves no atom out |
| `Selection.Selections.Remove` | src/selection.c:24-40 | exactly the selections of the client lose owner and window, and the windows' counts follow |
| `Selection.Selections.Clear` | src/selection.c:43-61 | exactly the selections of the window are cleared in spite of the early break, with one event each, in order |
| `Selection.Selections.SetOwner` | src/selection.c:71-125 | replies, ignored times, new owner and window, the event for a previous owner; times never go back nor exceed server time |
| `Selection.Selections.ClientGone` | src/selection.c:24-40 | no selection names a client that is gone |
| `Selection.Selections.WindowGone` | src/window.c:844-845 | no selection names a window that is gone |
| `Property.WireTwice` | src/Property.c:194-216 | swapping the bytes of every unit twice gives the data back |
| `Property.WireSlice` | src/Property.c:357-382 | swapping commutes with taking a part that begins and ends at a unit |
| `Property.LenExact` | src/Property.c:341-342 | the length computed in 32 bits is the one asked for exactly when the sum does not overflow or stays at or above the length |
| `Property.LenExample` | src/Property.c:341-342 | the usual request for everything from offset 1 on, for which it is not |
| `Property.DeleteExact` | src/Property.c:390-400 | deletion follows the protocol exactly when the type matches or the property has data |
| `Property.DeleteExample` | src/Property.c:390-400 | an empty property that is deleted by a read of another type |
| `Property.SwapCopy` | src/Property.c:196-215 | the copying loops reverse every unit |
| `Property.WireUnits` | src/Property.c:190-216 | unit by unit: the same numbers with their bytes in opposite order, for formats 16 and 32 and a client of the other order |
| `Property.CombinedEdits` | src/Property.c:176-216 | behind, before or instead of the old data, which else stays where it was, stands the value in the server's order |
| `Property.Properties.Change` | src/Property.c:74-224 | which reply is given, old data and value each in its place, and nothing changed on an error |
| `Property.Properties.Get` | src/Property.c:284-402 | which reply is given, the part asked for in the client's order, bytesAfter, nItems and whether the property is deleted |
| `Property.AnswerIs` | src/Property.c:335-385 | in the terms of the protocol: I bytes skipped, L = min(T, 4 * long-length) returned and A = N - (I + L) left, the items counted in units, the data in the client's order |
| `Property.Reassemble` | src/Property.c:305-383 | reads at successive offsets until bytesAfter is 0 give the whole data, for any positive length |
| `Property.MeaningIs` | src/Property.c:176-186 | the value of the last replacement, what was prepended since before it with the last one first, and what was appended behind it |
| `Property.EditAndRead` | src/Property.c:121-382 | after any edits by clients of any byte order, that is what a client of any byte order reads, in its own order |
| `AtomOrder.StrNCmpExact` | src/Atom.c:252-254 | what strncmp over the length of one name says about the lexicographic order up to a NUL |
| `AtomOrder.DirExact` | src/Atom.c:252-254 | dir points the right way exactly when strncmp decides or the difference of lengths fits in 16 bits |
| `AtomOrder.DirExample` | src/Atom.c:252-254 | two names for which it points the wrong way |
| `AtomOrder.SamePlain` | src/Atom.c:251-259 | names without NUL are the same to the server exactly when they are equal |
| `AtomOrder.SameExample` | src/Atom.c:251-259 | two different names with NUL that share an atom |
| `AtomOrder.Trichotomy` | src/Atom.c:251-259 | any two names are in exactly one relation: before, same or after |
| `Atom.InsertIndex` | src/Atom.c:274-278 | inserting at the place found keeps the index a strictly sorted permutation of the ids |
| `Atom.SpillExact` | src/Atom.c:275-279 | the entries an insertion writes are all in the index exactly when there are fewer than 198 atoms before it |
| `Atom.SpillsUnnoticed` | src/Atom.c:265 | of the insertions the test against MAX_ATOM admits, those at 198 and 199 atoms are not |
| `Atom.SpillExample` | src/Atom.c:241-282 | a client that interns 199 names and writes behind the index |
| `Atom.NamesDiffer` | src/Atom.c:241-282 | different ids have different names |
| `Atom.Atoms.Reset` | src/Atom.c:214-237 | only the predefined atoms remain, with their ids and their order |
| `Atom.Atoms.Search` | src/Atom.c:243-263 | finds the id, or last probe and direction give the insertion point |
| `Atom.Atoms.Get` | src/Atom.c:241-282 | a known name returns its id and changes nothing; a new one is appended unless onlyIfExists, at 200 atoms or without memory; existing ids never change; whether words behind the index were written |
| `Atom.Atoms.GetTwo` | src/Atom.c:241-282 | two names get one id exactly when the server cannot tell them apart |
| `CopyArea.ClipDst` | src/draw_img.c:290-338 | nothing exactly when the window is invisible or the destination misses the drawable; else the kind of drawable and exactly the common pixels, with the offset to the source kept |
| `CopyArea.FrameDivides` | src/draw_img.c:341-406 | a rectangle and its up to four sides make up the surrounding one without overlap |
| `CopyArea.PixelsOf` | src/draw_img.c:290-338 | the pixels of a drawable, and of a rectangle that is moved |
| `CopyArea.ClipSrc` | src/draw_img.c:341-406 | -1 exactly when there is no source pixel; else the copied part is exactly what has a source, lies in the source at the same offset, and with the tiles divides the destination |
| `CopyArea.CopyParts` | src/draw_img.c:453-516 | both in turn: the pixels to change with a source are one rectangle, those without up to four tiles, none in two of them |
| `Tiling.StartExact` | src/wind_draw.c:401-418 | the start in the pixmap is right exactly for sections that do not begin before the origin |
| `Tiling.PhaseCounts` | src/wind_draw.c:398-418 | the coordinate in the pixmap counts from the beginning of a copy |
| `Tiling.Screen.DrawRows` | src/wind_draw.c:428-446 | the inner loop fills one band of rows |
| `Tiling.Screen.DrawPmap` | src/wind_draw.c:398-449 | every pixel of the section is drawn once, no other, each from ((x - orig.x) mod W, (y - orig.y) mod H) |

## Left out

- Drawing, fonts, menus, keyboard, sockets, program launch, AES handles and debug output: foreign calls.
- WINDOW structs are one map per pointer field, keyed by window, not one object each; reuse of a freed address is a new key.
- Event masks and who selects what: parameters of the walks and of the crossing events.
- WindDelete on behalf of a client, the pointer root and the focus during WindDelete: not modelled.
- WindCleanup: the early exit at the first window of the client is not modelled, only the walk.
- Coordinates are unbounded; wrap-around of 16-bit coordinates is not modelled.
- WindowRoute.PathStack: requires `Fits`, an inequality between depths that the code does not test; beyond it the arrays overflow (`WindowRoute.FitsExact`).
- WindowRoute.MeetStack: requires the part of that inequality that concerns the windows it collects.
- Crossing.Grab: requires the same inequality, since it calls PathStack.
- WindPointerWatch: finding the window below the pointer is not modelled; the stacks it passes to EvntPointer are described by `Crossing.Flattened`.
- WindowTree.Tree.Create: a window is identified with its id, so the id 0 is excluded; attributes and the events of a new window are not modelled.
- Connection.Client.Read: handler bodies, the table of handlers with its empty entries and the byte swapping of request bodies are not modelled; the size limit is that of the default configuration; a read that finds bytes waiting takes at least one of them.
- Output.Buffer.Send: requires that the padding fits, the condition of `Output.OverrunExact`; what bytes it consists of is not stated.
- ClipChildren.ClipAway: the list of pointers is a sequence of rectangles that the methods reassign, and the merging test at the end of a band, which never succeeds, is left out.
- Md5.Context.ProcessBlock: the compression function is a parameter, and one call takes fewer than 2^32 bytes.
- Des.DesEncrypt: the tables and the key schedule are parameters.
- DesMode.DesCrypt: for lengths that are multiples of eight, as its caller guarantees.
- Pool.Pool.Insert: the bucket is the id modulo the number of buckets, which for powers of two is the id masked; inserting an id twice is excluded, as the callers do (`Pool.InsertExact`); chains are sequences, so the loops over pointers to NextXRSC fields are not modelled.
- Rotate.Properties.Rotate: events and window manager hints are not modelled.
- Property.Properties.Change: for a mode beyond Append the data is followed by what the memory held, which is a parameter; the unit count is taken to agree with the request length, and sizes stay below 2^32.
- Property.Properties.Get: requires the condition of `Property.LenExact`, without which the code reads outside the property.
- The pool of a window's properties is a map in `Property`, which `Pool` refines.
- Pixmap.Pixmaps.CopyGC: requires the condition of `Pixmap.CopyExact` for each copied field.
- Pixmap.Pixmaps.Vdi: fonts are not modelled.
- Pixmap.Pixmaps.FreeHeld: client pools and the orphan pool are a map and a set; orphans are found by address, so equal ids do not matter.
- Window backgrounds and icon hints as holders of pixmaps: `Background` and `Icon` slots exist, the requests that set them are not modelled.
- PmapInit at a reset: not modelled.
- Atom.Atoms.Get: requires names shorter than 32768 bytes, since beyond that the search can go wrong (`AtomOrder.DirExact`); the two words behind the index count as part of its array, and what else may lie there is not modelled.
- Atom.Atoms.Search: requires names shorter than 32768 bytes, since beyond that the search can go wrong (`AtomOrder.DirExact`).
- Atom.Atoms.GetTwo: the same.
- The table of predefined atoms: a parameter, required to be sorted.
- Selection.Selections.SetOwner: server time is a number that does not wrap around.
- Tiling.Screen.DrawPmap: for sections at or behind the origin, exactly those it starts right in (`Tiling.StartExact`); its callers pass sections intersected with the window or desktop that begins there (src/wind_draw.c:466-471, src/wind_draw.c:568-579, src/wmgr.c:879-889).
- Tiling.Screen.DrawRows: as DrawPmap.
- CopyArea.ClipSrc: what the rectangles hold when it returns -1 is not stated.
- Colour tables, raster conversion, cursors, passive grabs, scrolling: not modelled.
