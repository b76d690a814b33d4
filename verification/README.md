# Search trees, H.264 headers and Base64: a verified model

The project models three parts of the repository in Dafny and proves that they do what their
documentation, or the standard they follow, promises.

* **`_Include/tree.h`** – the red-black tree and the top-down splay tree that the macros generate.
  Nodes are heap objects; every rotation, link, assembly and fix-up step is a method that writes
  the same fields in the same order. The proofs go through inductive trees:
  `RedBlackShape`/`SplayShape` hold the trees and their mathematics, `RedBlackStore` and
  `SplayShape` say when a store of nodes holds them, `RedBlackTree`/`SplayTree` are the
  operations. `KeySets`, `RedBlackRuns` and `SplayRuns` follow whole runs from an empty tree.
  Ghost fields count the rotations (in `RotateLeft` and `RotateRight`, and nowhere else) and the
  comparisons (in `Compare`); the bounds are on these counts.
* **`ltRtspService/bit/`** – the bit cursor of `vlc_bits.h` and the two parsers built on it.
  `BitCursor` says what reading a buffer means, `BitStream` is the cursor, `ExpGolomb` and
  `H264Syntax` are the syntax of ITU-T H.264 (clauses 7.2, 7.3.2.1.1, 7.3.3, 9.1, 9.1.1, E.1.1,
  E.1.2) written as lists of elements, independently of the parsers, `BitWriter` lays such lists
  down with `bs_write` and reads them back, `BitLayout` shows that any of them stands in some
  buffer, `ItemBits` what their single bits are. `H264Sps` and `H264Slice` are the parsers, and
  `H264SpsProof`, `H264Profiles`, `H264SliceProof` and `H264RoundTrip` connect them. `AnnexB` is
  `h264_decode_annexb` of `h264.h`, which leaves the payload that a `Stream` stands for.
* **`ltRtspService/BaseEncoder.h`** – `Base64Encode` and `load_block` (`Base64`), against section 4
  of RFC 4648 (`Base64Format`, and character by character in `Base64Text`) and against what repeated
  calls should hand out (`Base64Blocks`).

How the pieces are stated:

* A tree method takes the tree as a ghost value and gives the new one back; `Valid()` is the whole
  invariant: links and parent links agree with the value, keys in strict order, red-black rules.
  `Elements()` is the in-order sequence, so "`old(Elements()) == p + [x] + q` and
  `Elements() == p + q`" says which element left and that nothing else did.
* A zipper splits a red-black tree at the node worked on. `Short(k, t)` reads "everything is
  balanced, but the subtree `t` at the hole `k` is one black node short".
* A bit buffer is an unending row of bits, zero past its end. `Value(i, n)` is the number in `n`
  bits from `i`, `Past(i, n)` where the cursor ends. `Stands(s, i, xs, end)` says that the elements
  `xs` stand in the buffer from bit `i` to bit `end`.
* What the definitions rest on is stated once more in plain numbers, bytes and letters: the code
  words of tables 9-1 to 9-3 (`UeTable`, `SeTable`), the whole bytes a read gives (`ByteValue`), table
  E-1 (`TableE1`), the syntax tables in one piece (`SpsListing` and its like), the fields of the
  parameter set by name (`SpsThrough`), the letters of the Base64 text (`TextIs`, `Characters`).
* Integers are unbounded in Dafny; where the width of the C type matters the wrap-around is written
  out (`Wrap`, `Unsigned`, `% UINT32`). Signed overflow is taken as two's complement.
* The value that `1 << i` gives for `i >= 31` in `bs_read_ue` is left open by the language: it is an
  arbitrary function `wide`, and nothing proved depends on it.

* An element stands as the standard lays it out, with code numbers up to 2^32 - 2. A code word with 31
  leading zeros is passed over exactly; its value is open, and only claimed for 30 or fewer (`Exact`).

Five things do not hold in general. Each is proved with its exact condition and with an input:

* `h264_decode_seq_parameter_set` takes `profile_idc >= 100` for the test of the high profiles. Among
  the profiles of the standard this is wrong for 44, 83 and 86 only (`ProfilesTold`). There
  `chroma_format_idc` is taken for `log2_max_frame_num_minus4`.
* It also skips `seq_scaling_matrix_present_flag` and goes on as if it were 0. If it is 1,
  `log2_max_frame_num_minus4` is read off the lists: 0 if the first list is sent, 12 if none is or
  none of the first four, and else what the first bits of the first `delta_scale` elements make it
  (`MatrixMisread`, `MatrixCases`).
  So, of a profile, and with a matrix or without, every parameter set in range is read back if and
  only if the test is right for the profile and there is no matrix (`ProfileServed`), and
  `log2_max_frame_num` comes back if and only if what is taken for it is the same
  (`H264Profiles.FrameNumRight`). `SmallThrough` lays a parameter set of either kind down and parses it.
* `h264_decode_slice` does not read `colour_plane_id`. With separate colour planes `frame_num` comes
  back only if it is one number that depends on the plane (`H264SliceProof.FrameNumRight`), and in
  frames outside IDR slices the whole header only if `pic_order_cnt_lsb` is another such number
  (`HeaderRight`). `PlaneThrough` lays a slice down that is misread.
* `h264_decode_annexb` wants a byte to follow an emulation prevention byte. A payload comes back from
  its escaped form if and only if it does not end in a byte 0 (`StripRight`); with one, a 3 is left at
  the end (`StripEscape`).
* `Base64Encode` sizes its buffer in 32 bits, and the test before its loop does not catch every size
  that comes out too small. Up to 3117314970 octets the text fits (`OutSizeFits`); from there to
  0xBFFFFFFF octets, and for the last two sizes, the test makes it return early (`RefusedSizes`); from
  0xC0000000 to 0xFFFFFFFD octets it enters the loop with too small a buffer, 2 bytes for the first
  of them (`SafeSizes`, `TwoBytes`).

`SPLAY_REMOVE` returns its argument, not the element it removed; where the two differ the contract
names both.

## Model

| member | source | states |
|---|---|---|
| RedBlackTree.Head.Remove | _Include/tree.h:510-575 | for any valid tree and any element of it: the result is a valid red-black tree whose in-order sequence is the old one without exactly that element, after at most three calls of the rotations |
| RedBlackTree.Head.RemoveColor | _Include/tree.h:434-508 | from a tree that is one black node short at the hole: a red-black tree with the same in-order sequence; the loop ends although the red-sibling case moves the hole down; at most three rotations |
| RedBlackTree.Head.RemoveColorStep | _Include/tree.h:440-504 | one turn keeps "only the subtree at elm is one black node short", or settles it |
| RedBlackTree.Head.RestoreLeft | _Include/tree.h:455-471 | the case with a red nephew restores the black counts and keeps the order |
| RedBlackTree.Head.RestoreRight | _Include/tree.h:487-503 | the mirrored case |
| RedBlackTree.Head.Detach | _Include/tree.h:515-570 | taking the node out, or its successor in its place, leaves a tree that is at most one black node short at the place left, and the order without the node |
| RedBlackTree.Head.RemoveInner | _Include/tree.h:519-557 | a node with two children: the successor takes over its links and colour |
| RedBlackTree.Head.Insert | _Include/tree.h:578-606 | a new element ends up between its neighbours in a valid red-black tree, after at most as many comparisons as the tree is high and at most two calls of the rotations; with an equal key present that element is returned and nothing changes |
| RedBlackTree.Head.InsertColor | _Include/tree.h:390-432 | a tree whose only fault is a red node below a red one becomes red-black with at most two rotations and the same order |
| RedBlackTree.Head.Find | _Include/tree.h:609-624 | finds the element with the key exactly when there is one, in h comparisons, no more than the tree is high, with 2^h <= (n+1)^2 |
| RedBlackTree.Head.MinMax | _Include/tree.h:647-660 | the first or the last element of the order, and NULL exactly for the empty tree |
| RedBlackTree.Head.Next | _Include/tree.h:626-645 | the element after the given one, through the right child or by climbing parent links, and NULL after the last |
| RedBlackTree.Head.Foreach | _Include/tree.h:672-675 | every element exactly once, in ascending order |
| RedBlackTree.Head.RotateLeft | _Include/tree.h:335-353 | RB_ROTATE_LEFT, field by field, for any nodes in its place; counts one rotation |
| RedBlackTree.Head.RotateRight | _Include/tree.h:355-373 | RB_ROTATE_RIGHT, field by field; counts one rotation |
| RedBlackTree.Head.TurnLeft | _Include/tree.h:335-353 | RB_ROTATE_LEFT anywhere in the heap is the rotation of the tree at the hole; all links agree again |
| RedBlackTree.Head.TurnRight | _Include/tree.h:355-373 | the mirrored rotation |
| RedBlackShape.PlugBalanced | _Include/tree.h:434-508 | a tree in its surroundings obeys the red-black rules if and only if it does, its surroundings do, and the two meet |
| RedBlackShape.ShortParts | _Include/tree.h:441-442 | where a subtree is one black node short there is a sibling: the code need not test it for NULL |
| RedBlackShape.SiblingReddened | _Include/tree.h:451-453 | painting the sibling red moves the shortage up one level |
| RedBlackShape.LiftedSibling | _Include/tree.h:442-446 | after the red-sibling rotation the shortage is where it was, with a black sibling |
| RedBlackShape.Settled | _Include/tree.h:464-468 | after the last rotation every path has its black count back |
| RedBlackShape.SplicedBalanced | _Include/tree.h:559-573 | splicing out a red node breaks nothing, a black one leaves the tree one black node short |
| RedBlackShape.HeightBound | _Include/tree.h:46-54 | 2^h <= (n+1)^2: the height 2 lg(n+1) promised in the header, without logarithms |
| RedBlackRuns.Run | _Include/tree.h:578-624 | every run of insertions, removals and searches from an empty tree is the run on a set of keys, with every answer |
| RedBlackRuns.RunHeight | _Include/tree.h:46-54 | after every run with n keys left the height is within the bound |
| RedBlackRuns.KeysHeight | _Include/tree.h:46-54 | the bound in terms of the set of keys |
| KeySets.KeysWithout | _Include/tree.h:510-575 | an element that goes from a sorted sequence takes exactly its key out of the set |
| SplayTree.Head.Splay | _Include/tree.h:202-235 | from any nonempty search tree: the loop ends, nodes and order stay, and the root is the element with the key or an immediate neighbour of where it would be; every node on the way to the key ends up at most half as deep as the way had nodes, and one deeper |
| SplayTree.Head.SplayMinMax | _Include/tree.h:240-271 | nodes and order stay, the root is the least or the greatest element, and every node on the way to it ends up at most half as deep as the way had nodes, and one deeper |
| SplayShape.HalvedHeight | _Include/tree.h:31-44 | splaying a spine for its end leaves a tree half as high, and two: the splay partly rebalances |
| SplayShape.EndedHalved | _Include/tree.h:211-234 | what was taken off the path is on the parts, and these are at most half as long as the path |
| SplayTree.Head.Turn | _Include/tree.h:212-232 | one turn keeps left part, middle and right part in order and shrinks the middle, or stops where the middle cannot go on |
| SplayTree.Head.Assemble | _Include/tree.h:105-110 | the three parts become one tree |
| SplayTree.Head.LinkLeft | _Include/tree.h:93-97 | the root and its right subtree move to the open end of the right part |
| SplayTree.Head.LinkRight | _Include/tree.h:99-103 | the mirrored move |
| SplayTree.Head.RotateRight | _Include/tree.h:81-85 | rotation at the root between the parts |
| SplayTree.Head.RotateLeft | _Include/tree.h:87-91 | the mirrored rotation |
| SplayTree.Head.Insert | _Include/tree.h:157-179 | a new element becomes the root, between its neighbours in the order; with an equal key present that element is returned and no element changes |
| SplayTree.Head.Remove | _Include/tree.h:181-200 | the element with the key leaves the order and nothing else does; without one, no element changes |
| SplayTree.Head.JoinParts | _Include/tree.h:192-195 | splaying the left part again leaves its root without a right child, so the right part can hang there |
| SplayTree.Head.Find | _Include/tree.h:121-130 | finds the element with the key exactly when there is one |
| SplayTree.Head.Next | _Include/tree.h:132-144 | the element after the given one; the elements stay |
| SplayTree.Head.MinMax | _Include/tree.h:146-151 | the first or the last element, brought to the root; NULL exactly for the empty tree |
| SplayTree.Head.Foreach | _Include/tree.h:285-288 | every element exactly once, in ascending order, although every step reshapes the tree |
| SplayShape.AssembledInorder | _Include/tree.h:105-110 | the assembled tree has the order left part, middle, right part |
| SplayShape.AssembledAround | _Include/tree.h:211-234 | where the descent stops, the root is the key's element or next to its place |
| SplayShape.AroundNext | _Include/tree.h:202-235 | no element comes between the key splayed for and the root: the root is the key's immediate neighbour |
| SplayShape.AroundMisses | _Include/tree.h:127-129 | if the root has another key than the one splayed for, no element has it |
| SplayShape.LinkInorder | _Include/tree.h:93-103 | linking keeps the order |
| SplayRuns.Run | _Include/tree.h:121-200 | every run of insertions, removals and searches from an empty tree is the run on a set of keys, with every answer |
| KeySets.OneKey | _Include/tree.h:157-200 | an element more or less is exactly its key more or less |
| BitStream.Bits.Read | ltRtspService/bit/vlc_bits.h:60-105 | the chunked read returns the number in the next bits, missing bits as zero, and stops at the end of the buffer; up to 32 bits |
| BitStream.Bits.Read1 | ltRtspService/bit/vlc_bits.h:107-124 | the next bit |
| BitStream.Bits.Show | ltRtspService/bit/vlc_bits.h:126-130 | the value bs_read would return; the cursor stays |
| BitStream.Bits.Skip | ltRtspService/bit/vlc_bits.h:132-141 | the cursor moves by exactly that many bits, past the end too, and stays a valid one |
| BitStream.Bits.Write | ltRtspService/bit/vlc_bits.h:143-169 | the low bits of the number are laid down as far as they fit; every other bit of the buffer stays |
| BitStream.Bits.Align1 | ltRtspService/bit/vlc_bits.h:188-194 | ones up to the byte boundary, nothing else changes, for a cursor moved by reads and writes |
| BitStream.Bits.Align1Turn | ltRtspService/bit/vlc_bits.h:188-194 | for every other cursor a turn of the loop changes nothing, so that the loop does not end |
| BitStream.Bits.Align | ltRtspService/bit/vlc_bits.h:171-178 | the cursor goes to the next byte boundary, if it is not at one |
| BitStream.Bits.Align0 | ltRtspService/bit/vlc_bits.h:180-186 | zeros up to the byte boundary, nothing else changes |
| BitStream.Bits.ReadUe | ltRtspService/bit/vlc_bits.h:196-205 | what Stream.Ue and Stream.PastUe say of any buffer; at its end 0, and the cursor stays |
| ExpGolomb.UeAtEnd | ltRtspService/bit/vlc_bits.h:196-205 | from the end of the buffer on, bs_read_ue gives 0 and stays |
| ExpGolomb.UeZerosOnly | ltRtspService/bit/vlc_bits.h:200-204 | with n zeros and nothing else left, 2^(n-1) - 1, and the cursor at the end |
| ExpGolomb.UeCut | ltRtspService/bit/vlc_bits.h:200-204 | with a code word cut off after its one, the bits that are there count as its first, and the cursor is at the end |
| ExpGolomb.UeTable | ltRtspService/bit/vlc_bits.h:196-205 | the code words of tables 9-1 and 9-2, in bytes |
| ExpGolomb.SeTable | ltRtspService/bit/vlc_bits.h:207-212 | table 9-3 |
| BitCursor.ByteValue | ltRtspService/bit/vlc_bits.h:60-105 | eight bits from a byte boundary are the byte, and fewer are its top bits |
| BitStream.Bits.ReadSe | ltRtspService/bit/vlc_bits.h:207-212 | the same for signed values |
| BitCursor.ReadIsReads1 | ltRtspService/bit/vlc_bits.h:60-124 | bs_read of n bits is n calls of bs_read1, first bit most significant, at the end of the buffer too |
| BitCursor.ReadInTwo | ltRtspService/bit/vlc_bits.h:60-105 | bs_read(a+b) is bs_read(a) and bs_read(b) put together, at the end of the buffer too |
| BitCursor.SkipIsRead | ltRtspService/bit/vlc_bits.h:132-141 | bs_skip goes where bs_read goes if and only if the bits are there |
| BitCursor.WriteThenRead | ltRtspService/bit/vlc_bits.h:60-169 | what bs_write lays down, bs_read returns modulo 2^n, and both cursors end together |
| BitCursor.FullChunk | ltRtspService/bit/vlc_bits.h:94-101 | the masked and shifted chunk adds exactly the bits left in the byte |
| BitCursor.LastChunk | ltRtspService/bit/vlc_bits.h:82-93 | the last chunk completes the number |
| BitOps.MaskTable | ltRtspService/bit/vlc_bits.h:62-71 | the table of masks, entry by entry |
| ExpGolomb.ReadsUe | ltRtspService/bit/vlc_bits.h:196-205 | bs_read_ue on the code word of v (9.1) ends after it, and returns v up to 30 leading zeros |
| ExpGolomb.ReadsSe | ltRtspService/bit/vlc_bits.h:207-212 | bs_read_se on the code word of v (9.1.1) ends after it, and returns v up to 30 leading zeros |
| ExpGolomb.SignedBack | ltRtspService/bit/vlc_bits.h:207-212 | the mapping to signed values undoes the code number |
| ExpGolomb.ReadBack | ltRtspService/bit/vlc_bits.h:196-212 | any sequence of elements takes exactly its own bits: the code is self-delimiting; each value is read back, up to 30 leading zeros |
| BitWriter.PutAll | ltRtspService/bit/vlc_bits.h:143-169 | any sequence of elements laid down with bs_write stands there, and nothing else in the buffer changes |
| BitWriter.ReadKinds | ltRtspService/bit/vlc_bits.h:60-212 | calling bs_read, bs_read_ue and bs_read_se in turn ends after the elements that stand there and returns their values, if none has 31 leading zeros |
| BitWriter.RoundTrip | ltRtspService/bit/vlc_bits.h:143-212 | what was laid down, the calls return from the saved cursor, and both cursors end together |
| BitLayout.SomewhereStands | ltRtspService/bit/vlc_bits.h:143-169 | any elements in range stand in some buffer |
| H264Sps.Sps.Decode | ltRtspService/bit/h264_sps.h:71-284 | on any buffer: the fields, the return value and the cursor are what ParseSps says; a refused parameter set leaves every field but profile_idc as it was, and the cursor right after its number |
| H264Sps.Refusal | ltRtspService/bit/h264_sps.h:91-96 | a parameter set is refused if and only if its number is 32 or more, and then nothing more is read |
| H264Syntax.SpsListing | ltRtspService/bit/h264_sps.h:85-171 | the elements of seq_parameter_set_data (7.3.2.1.1) in one list |
| H264Syntax.VuiListing | ltRtspService/bit/h264_sps.h:177-250 | the elements of vui_parameters (E.1.1) up to the HRD parameters |
| H264Syntax.VuiTailListing | ltRtspService/bit/h264_sps.h:252-281 | the elements from there on, with hrd_parameters (E.1.2) |
| H264Syntax.SliceListing | ltRtspService/bit/h264_slice.h:21-49 | the elements of slice_header (7.3.3) as far as they are read |
| H264Syntax.TableE1 | ltRtspService/bit/h264_sps.h:180-187 | table E-1, entry by entry |
| H264SpsProof.CycleClamped | ltRtspService/bit/h264_sps.h:132-139 | of more than 256 offsets, 256 are passed over |
| H264Sps.DecodeHrd | ltRtspService/bit/h264_sps.h:54-69 | on any buffer: the cursor ends where PastHrd says, with the entry count in the width of the C type |
| H264SpsProof.SpsRoundTrip | ltRtspService/bit/h264_sps.h:71-284 | every parameter set in range without a scaling matrix, of a profile that is told right, with any VUI and HRD parameters, is read back in every recorded field, and the cursor stops right after the last bit |
| H264SpsProof.VuiBack | ltRtspService/bit/h264_sps.h:177-281 | the VUI parameters (E.1.1): aspect ratio from table E-1, timing, reorder frames |
| H264SpsProof.HrdBack | ltRtspService/bit/h264_sps.h:54-69 | the HRD parameters (E.1.2), any number of entries that fits the count, are passed over exactly |
| H264SpsProof.AspectBack | ltRtspService/bit/h264_sps.h:177-218 | the sample aspect ratio is that of table E-1, the extended one, or unspecified |
| H264SpsProof.PocBack | ltRtspService/bit/h264_sps.h:109-140 | log2_max_frame_num and the fields of the picture order count type |
| H264SpsProof.SizeFits | ltRtspService/bit/h264_sps.h:147-148 | 16*(n+1) fits the field if and only if n < 2^27 - 1 |
| H264SpsProof.IdChecked | ltRtspService/bit/h264_sps.h:91-96 | a parameter set of any profile is refused if and only if its number is 32 or more |
| H264Profiles.ProfilesTold | ltRtspService/bit/h264_sps.h:99 | the test for the high profiles is right for a profile of the standard if and only if it is not 44, 83 or 86 |
| H264Profiles.ProfileServed | ltRtspService/bit/h264_sps.h:99-107 | for any profile_idc, with a scaling matrix or without: every such parameter set in range is read back wherever it stands, if and only if the test tells the profile right and there is no matrix |
| H264Profiles.FrameNumRight | ltRtspService/bit/h264_sps.h:99-112 | log2_max_frame_num comes back if and only if what is taken for it is the same: itself, chroma_format_idc, or the number read off the scaling lists |
| H264Profiles.HighMissed | ltRtspService/bit/h264_sps.h:99-112 | for a high profile below 100, chroma_format_idc is taken for log2_max_frame_num_minus4 |
| H264Profiles.MatrixMisread | ltRtspService/bit/h264_sps.h:105-112 | with a scaling matrix, what is read for log2_max_frame_num_minus4, from the flags and the first delta_scale elements |
| H264Profiles.MatrixCases | ltRtspService/bit/h264_sps.h:105-112 | 0 if the first list is sent, 12 if none is or none of the first four |
| H264Profiles.SmallMisread | ltRtspService/bit/h264_sps.h:99-112 | a parameter set of each profile that is not told right, and of each with a scaling matrix, read wrong wherever it stands |
| H264SpsProof.SpsOnward | ltRtspService/bit/h264_sps.h:71-284 | on any buffer and from any start the cursor does not go back, and passes the end by no more than the 20 bits skipped |
| H264SpsProof.WidthsBounded | ltRtspService/bit/h264_sps.h:109-121 | after a successful parse of any buffer both field widths for the slice header are at most 12, plus 4 |
| H264Slice.Slice.Decode | ltRtspService/bit/h264_slice.h:14-60 | on any buffer: fields and cursor are what ParseSlice says |
| H264SliceProof.SliceAfterSps | ltRtspService/bit/h264_slice.h:14-60 | behind any supported parameter set without separate colour planes: slice type, frame_num and pic_order_cnt_lsb come back, on the IDR and the field branches, with widths 4 to 16, and the cursor is at the next element |
| H264SliceProof.PlaneMisread | ltRtspService/bit/h264_slice.h:21-25 | with separate colour planes frame_num begins with the two bits of colour_plane_id and loses its own last two |
| H264SliceProof.FrameNumRight | ltRtspService/bit/h264_slice.h:21-25 | behind any supported parameter set, frame_num comes back if and only if there are no separate colour planes or it is the plane times 2^n / 3, for n bits |
| H264SliceProof.PlaneLsb | ltRtspService/bit/h264_slice.h:29-49 | with separate colour planes, in frames outside IDR slices, pic_order_cnt_lsb begins with the last two bits of frame_num and loses its own last two |
| H264SliceProof.HeaderRight | ltRtspService/bit/h264_slice.h:21-49 | there both numbers come back if and only if each is its third of the range |
| H264SliceProof.SliceOnward | ltRtspService/bit/h264_slice.h:14-60 | on any buffer and from any start the cursor does not go back, nor past the end |
| H264SliceProof.SliceWidths | ltRtspService/bit/h264_slice.h:25-49 | after a successful parse of any parameter set both widths are at most 16 |
| H264RoundTrip.SpsThrough | ltRtspService/bit/h264_sps.h:71-284 | writer and parser together on one array; each of the 20 fields by its name |
| H264RoundTrip.SliceThrough | ltRtspService/bit/h264_slice.h:14-60 | a parameter set and a slice header through both parsers |
| H264RoundTrip.SmallThrough | ltRtspService/bit/h264_sps.h:99-112 | a parameter set of any profile that is not told right, or with a scaling matrix, laid down and misread |
| H264RoundTrip.PlaneThrough | ltRtspService/bit/h264_slice.h:21-25 | a slice of a separate colour plane, laid down and misread: frame 64 for frame 0 |
| AnnexB.DecodeAnnexB | ltRtspService/bit/h264.h:23-44 | on any bytes: what Strip says, in the room of the source |
| AnnexB.StripEscape | ltRtspService/bit/h264.h:29-41 | stripping an escaped payload (7.4.1.1) gives the payload, and a 3 more if it ends in a zero |
| AnnexB.StripRight | ltRtspService/bit/h264.h:29-41 | a payload comes back if and only if it does not end in a zero |
| AnnexB.EscapeClean | ltRtspService/bit/h264.h:23-44 | an escaped payload has no start code in it and does not end in a zero, whatever the payload |
| AnnexB.StripExample | ltRtspService/bit/h264.h:31-38 | 00 00 03 01 becomes 00 00 01, and the like |
| H264RoundTrip.SpsEscaped | ltRtspService/bit/h264.h:23-44 | a parameter set in an escaped payload comes back through both steps |
| H264RoundTrip.SpsFromNal | ltRtspService/bit/h264.h:23-44 | the two functions one after the other, on any bytes |
| Base64.Base64Encode | ltRtspService/BaseEncoder.h:22-67 | for any size: the string is the encoding of section 4 of RFC 4648 and the result its length, or the early return leaves the string alone, or, for the sizes of SafeSizes and no others, it would write past its buffer; the text ends in one '=' for each octet that the last group lacks, and its other characters are the letters of their six bits |
| Base64Text.TextIs | ltRtspService/BaseEncoder.h:24-57 | character k of the encoding: '=' at the end, else the letter, in the alphabet written out, of the six bits from bit 6k |
| Base64Text.Vectors | ltRtspService/BaseEncoder.h:41-61 | the encodings of f, fo and foobar in section 10 of RFC 4648 |
| Base64Text.Characters | ltRtspService/BaseEncoder.h:139-143 | load_block keeps the 65 characters written out, and no others |
| Base64Text.EncodedInterspersed | ltRtspService/BaseEncoder.h:132-151 | every encoding consists of such characters, so that what is said of interspersed texts holds of one at least for any octets |
| Base64.OutSizeFits | ltRtspService/BaseEncoder.h:33-35 | the characters and the terminator fit the buffer if and only if there are at most 3117314970 octets |
| Base64.NotRefused | ltRtspService/BaseEncoder.h:39 | then the early return is not taken |
| Base64.RefusedSizes | ltRtspService/BaseEncoder.h:33-39 | the early return is taken if and only if there are more octets and not from 0xC0000000 to 0xFFFFFFFD of them |
| Base64.SafeSizes | ltRtspService/BaseEncoder.h:33-62 | every write has room or the early return is taken, if and only if there are not from 0xC0000000 to 0xFFFFFFFD octets |
| Base64.TwoBytes | ltRtspService/BaseEncoder.h:33-39 | for 0xC0000000 octets the buffer has two bytes and the early return is not taken |
| Base64.PaddingTells | ltRtspService/BaseEncoder.h:42-48 | padding, in 32 bits, tells one and two octets left from more |
| Base64Format.EncodedLength | ltRtspService/BaseEncoder.h:22-67 | the length is 4*ceil(n/3) |
| Base64Format.DecodedEncoded | ltRtspService/BaseEncoder.h:41-61 | decoding undoes encoding, for every string of octets |
| Base64.LoadBlock | ltRtspService/BaseEncoder.h:132-151 | the next four Base64 characters, with the byte 0xFF for each that is missing at the end, and the position after them |
| Base64Blocks.FoundGroup | ltRtspService/BaseEncoder.h:132-151 | the n-th call hands out the n-th group of four Base64 characters of the text, whatever lies between |
| Base64Blocks.BlocksDecode | ltRtspService/BaseEncoder.h:132-151 | the encoding of any octets with other bytes put in anywhere: the groups handed out decode to the octets |
| Base64.ScanBack | ltRtspService/BaseEncoder.h:132-151 | the same of the calls themselves |

## Left out

- RB_AUGMENT (`_Include/tree.h:331-333`, `_Include/tree.h:551-556`): empty unless a program defines it, and with it the climb that only calls it.
- The second copy of the trees (`_Include/tree.h:704-1354`): the include guard shuts it out.
- The element type, the entry field and the comparison function are parameters of the macros: elements here have one entry and an integer key, compared by their order; an element is in one tree at a time.
- The dummy `__node` of SPLAY and SPLAY_MINMAX is on the stack in the source and a fresh heap object here.
- The amortised time of splaying (`_Include/tree.h:31-44`): it needs a logarithmic potential.
- SplayTree.Head.SplayMinMax: requires `val != 0`; with 0 the loop of the source never ends, and no macro passes it.
- SplayTree.Head.Remove: memory of a removed element stays with the caller, as in the source.
- BitStream.Bits.Align1: requires a cursor moved by reads and writes; for any other the loop of the source never ends (`Align1Turn`).
- BitStream.Bits.Read: requires at most 32 bits, as the table of masks has entries for; the parsers never ask for more.
- BitStream.Bits.ReadUe: the value for 31 or 32 leading zeros is not stated, because the C expression has none; cursor and termination are.
- BitStream.Bits.Pos: the position is unbounded, not an `int`; the pointers are offsets into one array; running out of the address space by skipping is not modelled.
- H264SpsProof.SpsRoundTrip: requires no scaling matrix and a profile that is told right; `ProfileServed` shows that it must.
- H264SliceProof.HeaderRight: with separate colour planes, in fields and in IDR slices, what is read for `pic_order_cnt_lsb` is not stated.
- H264Sps.Sps: fields of `h264_sps_t` that the parser never sets are not there (`level_idc`, the offsets, the cropping rectangle, the scaling lists); the short-cut after an illegal number of reorder frames is there, its message is not.
- H264SliceProof.SliceAfterSps: what follows in the slice header is not read by the source, and stands for any elements here.
- Base64.Base64Encode: where the source would write past its buffer the model stops and says so. Allocation and release of the buffer are not modelled, and the string is a value.
- Base64Decode (`ltRtspService/BaseEncoder.h:69-130`) is commented out in the source; a decoder in the words of RFC 4648 stands in for it.
- `h264_get_nal_type` and `h264_find_frame_end` of `ltRtspService/bit/h264.h`: they only add easy members.
- The NAL splitting and the FU-A fragments of `ltRtspService/h264MediaStream.cpp`, RTP over TCP, the RTSP strings, the media buffers and the rest of `ltRtspService`: not modelled.
- `_Include/event2/` and Boost: library headers.
- Messages with `printf`.
