# Course-lab compressors, modelled and verified in Dafny

This project models the byte-level compressors of a course repository on data
compression and proves that each of them decodes what it encodes.

The Rust labs are:

- **lab1-rs**: Huffman coding over the ranks of the distinct bytes.
- **lab5**: Huffman coding with move-to-back over a sorted alphabet and a min-heap.
- **lab2**: Shannon–Fano coding.
- **lab3**: the Shannon bit walk only.
- **lab7**: LZ77.
- **lab8**: LZ78.
- **lab10**: run-length coding of gray and RGB images.
- **lab11**: LZW-named coding of gray and RGB images.

The Python programs are **lab2-py** (Fano), **lab4-py** (adaptive Huffman),
**research/adap_huf.py** (adaptive Huffman tree) and **research/lz77.py**.

Each operation that the source writes as a loop over mutable state is a Dafny
`method` or a `class` (the bit writers and readers, the priority queues). Each
such method is proved equal to a specification function. The lemmas about
those functions carry the programs' promises:

- round trips: `decompress(compress(x)) == x`;
- prefix-free codes;
- the padding count;
- header layout;
- the exact inputs on which a decoder panics, with integer overflow taken to panic as in a debug build.

A Rust panic and a Python exception are both modelled as `None`. Bytes are
`byte` (0..255). Bits are the datatype `Bit` (`Zero`, `One`).

The modules are:

- `Common`: bytes, bits, `Option`, sequence helpers.
- `MaxQueue` / `MinQueue`: the two priority queues.
- `CodeTree`: the code tree, `dfs`/`get_code`, and the decoding walk.
- `HuffmanBuild`: `from_queue`.
- `BitCodec`: the lab1-rs/lab5 bit writer and reader.
- `RankHeader`, `HuffmanRank`: lab1-rs.
- `HuffmanMtb`: lab5.
- `Fano`: lab2.
- `Shannon`: lab3.
- `PyBits`: the Python bit writer and readers.
- `FanoPy`: lab2-py.
- `AdaptiveTree`: research/adap_huf.py.
- `Adaptive`: lab4-py.
- `Matching`, `Lz77`: lab7.
- `Lz77Py`: research/lz77.py.
- `Lz78`: lab8.
- `Container`, `Rle`, `Lzw`: lab10 and lab11.

## Model

| member | source | states |
|---|---|---|
| MaxQueue.CompareConsistent | lab1-rs/src/priority_queue.rs:9-27 | equality compares weights only; the ordering is antisymmetric, ignores the payload, and puts the heavier item above |
| MaxQueue.MaxIndex | lab1-rs/src/priority_queue.rs:23-27 | the popped index holds a greatest weight, and every earlier item is strictly lighter |
| MaxQueue.PriorityQueue.constructor | lab1-rs/src/priority_queue.rs:34-38 | a new queue is empty |
| MaxQueue.PriorityQueue.Insert | lab1-rs/src/priority_queue.rs:40-42 | the new item is stored and nothing else changes |
| MaxQueue.PriorityQueue.Pop | lab1-rs/src/priority_queue.rs:48-50 | `None` exactly on an empty queue; otherwise removes and returns an item of greatest weight, and keeps the rest |
| MinQueue.CompareConsistent | lab5/src/priority_queue.rs:10-28 | equality compares weights only; the reversed ordering is antisymmetric, ignores the payload, and puts the lighter item above |
| MinQueue.MinIndex | lab5/src/priority_queue.rs:24-28 | the popped index holds a least weight, and every earlier item is strictly heavier |
| MinQueue.PriorityQueue.constructor | lab5/src/priority_queue.rs:36-40 | a new queue is empty |
| MinQueue.PriorityQueue.Insert | lab5/src/priority_queue.rs:42-47 | the new item is stored and nothing else changes |
| MinQueue.PriorityQueue.Len | lab5/src/priority_queue.rs:49-51 | the number of stored items |
| MinQueue.PriorityQueue.Pop | lab5/src/priority_queue.rs:53-55 | `None` exactly on an empty queue; otherwise removes and returns an item of least weight, and keeps the rest |
| CodeTree.DfsSpec | lab1-rs/src/huffman.rs:53-68 | `dfs` returns its accumulator unchanged, adds exactly the leaves of the tree to the table, leaves other entries alone, and gives each leaf the accumulator followed by its path from the subtree root |
| CodeTree.DfsNode | lab1-rs/src/huffman.rs:58-65 | codes found below the two children, under prefixes `acc+[Zero]` and `acc+[One]`, are root paths of the node under `acc` |
| CodeTree.GetCode | lab1-rs/src/huffman.rs:70-78 | the table has a code for every leaf value and for nothing else |
| CodeTree.DfsInto | lab1-rs/src/huffman.rs:53-68 | the push/recurse/pop traversal on a shared path computes `Dfs` |
| CodeTree.GetCodeTable | lab1-rs/src/huffman.rs:70-78 | the method builds the `get_code` table |
| CodeTree.GetCodePaths | lab1-rs/src/huffman.rs:70-78 | for a node tree, every code is a non-empty path from the root to its own leaf |
| CodeTree.FollowAppend | lab1-rs/src/huffman.rs:271-284 | following `p + q` is following `p`, then `q` from where `p` ends |
| CodeTree.PathCodePrefixFree | lab1-rs/src/huffman.rs:53-68 | in a table of root-to-leaf paths, no code of one value is a prefix of the code of another |
| CodeTree.GetCodePrefixFree | lab1-rs/src/huffman.rs:70-78 | the codes `get_code` assigns are prefix-free, including the lone-leaf table |
| CodeTree.EncodeAppend | lab1-rs/src/huffman.rs:209-212 | the bits of `a + b` are the bits of `a` followed by those of `b` |
| CodeTree.WalkPath | lab1-rs/src/huffman.rs:272-284 | walking a code path from a node emits its leaf once and resumes at the root |
| CodeTree.WalkEncode | lab1-rs/src/huffman.rs:204-287 | walking the concatenated codes of any data over the tree's own leaves gives the data back, including the single-leaf tree whose code is `[One]` |
| CodeTree.WalkStep | lab1-rs/src/huffman.rs:272-284 | one bit of the walk: a step to the named child, emitting and resetting on a leaf |
| CodeTree.Decode | lab1-rs/src/huffman.rs:271-284 | the `while let Some(bit)` loop emits the walk of every bit the reader still held and leaves the reader drained |
| CodeTree.DecodeStep | lab1-rs/src/huffman.rs:272-283 | one loop turn either finds the reader empty or consumes one bit, emits at most one value, and keeps the rest of the walk |
| CodeTree.Advance | lab1-rs/src/huffman.rs:273-283 | a leaf reached after the step is emitted and resets the state to the root; otherwise the state is the child |
| CodeTree.WriteCodes | lab1-rs/src/huffman.rs:208-213 | the writer's bytes are the packed concatenated codes, and its remainder is their padding count |
| CodeTree.ReadCodes | lab1-rs/src/huffman.rs:269-286 | decoding a payload walks exactly the bits the reader keeps under the recorded remainder |
| HuffmanBuild.DrainBag | lab1-rs/src/huffman.rs:38-40 | draining yields every stored item, once each (the same multiset) |
| HuffmanBuild.Join | lab1-rs/src/huffman.rs:43-48 | the merged node weighs the sum of the two popped weights and has the first popped tree on its left |
| HuffmanBuild.MergeOnce | lab1-rs/src/huffman.rs:42-49 | one merge round leaves one tree fewer |
| HuffmanBuild.CombineBag | lab1-rs/src/huffman.rs:43-48 | popping any two trees and queueing their node keeps the multiset of leaves |
| HuffmanBuild.MergeOnceBag | lab1-rs/src/huffman.rs:42-49 | a merge round keeps the multiset of leaves |
| HuffmanBuild.DrainStep | lab1-rs/src/huffman.rs:38-40 | one pop moves the popped item, as a leaf, from the drained rest to the queue of leaves |
| HuffmanBuild.MergeBag | lab1-rs/src/huffman.rs:42-50 | the second loop neither loses nor invents a leaf |
| HuffmanBuild.DrainValues | lab1-rs/src/huffman.rs:38-40 | the drained values are the stored values, once each |
| HuffmanBuild.FromQueueLeaves | lab1-rs/src/huffman.rs:36-51 | on a non-empty queue `from_queue` succeeds, and its tree carries exactly the queued values as leaves, once per item |
| HuffmanRank.LeafQueue | lab1-rs/src/huffman.rs:37-40 | the first loop empties the queue and fills a fresh one with the drained items as leaves |
| HuffmanRank.MergeTwo | lab1-rs/src/huffman.rs:43-48 | two pops and an insert perform one merge round |
| HuffmanRank.FromQueue | lab1-rs/src/huffman.rs:36-51 | `from_queue`, the `assert!` on an empty queue included |
| HuffmanRank.FillQueue | lab1-rs/src/huffman.rs:106-109 | the fresh queue holds one item per weight-map entry |
| HuffmanRank.BuildMetadataSpec | lab1-rs/src/huffman.rs:104-142 | metadata exists exactly for a non-empty weight map; it keeps the weights and the remainder, and its tree and code cover exactly the map's keys |
| HuffmanRank.ComputeSpecCovers | lab1-rs/src/huffman.rs:104-119 | `compute` succeeds exactly on non-empty input; its weights are the ranks, every weight is below 256, and every input byte has a code and a leaf |
| HuffmanRank.LoadSpecBound | lab1-rs/src/huffman.rs:121-142 | a loaded header never reaches past the payload offset of line 268 |
| HuffmanRank.ComputeMetadata | lab1-rs/src/huffman.rs:104-119 | the method computes `compute`'s metadata, or `None` where it panics |
| HuffmanRank.LoadMetadata | lab1-rs/src/huffman.rs:121-142 | the method computes `load`'s metadata, or `None` where it panics |
| HuffmanRank.DumpMetadata | lab1-rs/src/huffman.rs:144-155 | the dumped header layout |
| HuffmanRank.DecompressLoaded | lab1-rs/src/huffman.rs:264-287 | once the header loads, the output is the tree walk over the kept payload bits that start after `2 + 2 * len` header bytes |
| HuffmanRank.Compress | lab1-rs/src/huffman.rs:204-221 | the method writes the specified archive, or `None` on empty input where `from_queue` panics |
| HuffmanRank.Decompress | lab1-rs/src/huffman.rs:264-287 | the method decompresses as specified, or `None` where loading panics |
| HuffmanRank.RoundTrip | lab1-rs/src/huffman.rs:204-287 | every non-empty input compresses, and decompressing the archive gives the input back |
| RankHeader.Ascending | lab1-rs/src/huffman.rs:86-87 | the sorted keys lie in the set, and there are at most 256 of them |
| RankHeader.AscendingSpec | lab1-rs/src/huffman.rs:86-87 | the sorted keys list each member of the set exactly once, strictly increasing |
| RankHeader.IndexMap | lab1-rs/src/huffman.rs:88-91 | the numbering maps exactly the elements listed |
| RankHeader.IndexMapSorted | lab1-rs/src/huffman.rs:88-91 | on distinct elements, each one is mapped to its own index |
| RankHeader.RanksSpec | lab1-rs/src/huffman.rs:81-93 | the weights are over exactly the distinct input bytes; the i-th smallest byte gets weight i, and all weights are below the count of distinct bytes |
| RankHeader.RanksOrder | lab1-rs/src/huffman.rs:81-93 | byte order and weight order agree, both directions |
| RankHeader.GetWeights | lab1-rs/src/huffman.rs:81-93 | the count/sort/enumerate loops compute the ranks |
| RankHeader.PairBytesAt | lab1-rs/src/huffman.rs:149-152 | pair i of the dump is the i-th key and its weight truncated to `u8` |
| RankHeader.PairsMapCard | lab1-rs/src/huffman.rs:123-127 | `n` pairs read give between one and `n` entries, because repeated bytes collapse |
| RankHeader.RestrictAll | lab1-rs/src/huffman.rs:125-127 | the restricted map covers the listed keys with their weights |
| RankHeader.PairsMapDump | lab1-rs/src/huffman.rs:121-155 | reading back the first `n` dumped pairs restores the weights of the first `n` keys, when the weights fit a byte |
| RankHeader.HeaderRoundTrip | lab1-rs/src/huffman.rs:121-155 | `load` inverts `dump` on any following bytes for every non-empty weight table whose weights are below 256; the header is `2 + 2 * len` bytes long |
| RankHeader.DumpHeaderLayout | lab1-rs/src/huffman.rs:144-155 | the remainder is at 0, `len - 1` at 1, and the pairs in key order from 2 |
| RankHeader.RestrictAscending | lab1-rs/src/huffman.rs:149-152 | restricting a map to its sorted keys is the map |
| RankHeader.DumpWeights | lab1-rs/src/huffman.rs:144-155 | the push loop writes the dump layout |
| RankHeader.LoadWeights | lab1-rs/src/huffman.rs:121-127 | the read loop loads the header, or `None` exactly where an index runs past the end |
| RankHeader.WeightItems | lab1-rs/src/huffman.rs:107-109 | one queue item per listed key, carrying that key's weight |
| RankHeader.ItemsOfSpec | lab1-rs/src/huffman.rs:107-109 | the queue holds one item per weight entry, with its weight, with the keys in ascending order |
| BitCodec.PackByte | lab1-rs/src/huffman.rs:173-182 | the folded byte is below `2^n` for `n` bits |
| BitCodec.PackByteSnoc | lab1-rs/src/huffman.rs:179 | each further bit is or-ed in at the next position |
| BitCodec.LowBitsPack | lab1-rs/src/huffman.rs:240-245 | unpacking a packed group gives the group back, zero-padded |
| BitCodec.PackLowBits | lab1-rs/src/huffman.rs:173-182 | packing the low bits of a value that fits gives the value |
| BitCodec.LowBitsAt | lab1-rs/src/huffman.rs:242-244 | bit i agrees with the mask `byte & (1 << i)` |
| BitCodec.ByteBitsPack | lab1-rs/src/huffman.rs:173-182 | packing the eight bits the reader pushes gives the byte back |
| BitCodec.PackUnpack | lab1-rs/src/huffman.rs:184-201 | packing whole bytes' bits and a tail yields those bytes and the tail byte |
| BitCodec.PackLength | lab1-rs/src/huffman.rs:195-201 | the writer emits one byte per eight bits, plus one final byte always |
| BitCodec.PaddingOf | lab1-rs/src/huffman.rs:196 | the recorded remainder `8 - pending % 8` is always in 1..=8 |
| BitCodec.Trim | lab1-rs/src/huffman.rs:247-249 | popping `k` times leaves `max(0, len - k)` items |
| BitCodec.PackRoundTrip | lab1-rs/src/huffman.rs:173-261 | reading back the written bytes, with the recorded remainder, yields exactly the written bits; a remainder of 8 drops the whole padding byte |
| BitCodec.CollectByte | lab1-rs/src/huffman.rs:174-179 | the fold loop computes the packed byte |
| BitCodec.SpreadByte | lab1-rs/src/huffman.rs:242-245 | the mask loop yields the byte's eight bits, least significant first |
| BitCodec.PopTimes | lab1-rs/src/huffman.rs:247-249 | `remainder` pops trim that many items, each a no-op once empty |
| BitCodec.BitWriter.constructor | lab1-rs/src/huffman.rs:165-171 | a new writer has nothing written and remainder 0 |
| BitCodec.BitWriter.DumpByte | lab1-rs/src/huffman.rs:173-182 | the pending bits become one more byte and the buffer is cleared |
| BitCodec.BitWriter.WriteBit | lab1-rs/src/huffman.rs:184-189 | the bit is recorded, and a byte is emitted exactly when eight bits are pending |
| BitCodec.BitWriter.WriteBits | lab1-rs/src/huffman.rs:191-193 | the codeword is appended to the written bits |
| BitCodec.BitWriter.Finish | lab1-rs/src/huffman.rs:195-201 | the output is the packing of every bit written, and the remainder is its padding count |
| BitCodec.OffsetInByte | lab1-rs/src/huffman.rs:196 | whole bytes plus `b < 8` bits leave `b` pending |
| BitCodec.WholeByteMore | lab1-rs/src/huffman.rs:196 | eight more bits leave the padding unchanged |
| BitCodec.KeptStep | lab1-rs/src/huffman.rs:240-254 | read from byte p on, the kept bits are those of byte p followed by the rest |
| BitCodec.RefillStep | lab1-rs/src/huffman.rs:240-254 | refilling from byte p keeps the order of the bits still to be read |
| BitCodec.UnpackAppend | lab1-rs/src/huffman.rs:240-254 | the bits of `a + b` are those of `a` followed by those of `b` |
| BitCodec.BitReader.constructor | lab1-rs/src/huffman.rs:231-238 | a new reader is still to yield every kept bit of the payload |
| BitCodec.BitReader.ReadByte | lab1-rs/src/huffman.rs:240-254 | past the end nothing changes; otherwise it pushes the byte's bits, pops `remainder` for the last byte, reverses the buffer and advances |
| BitCodec.BitReader.Refill | lab1-rs/src/huffman.rs:257-259 | reading a byte into an empty buffer keeps the bits still to come, and only an exhausted reader stays empty |
| BitCodec.BitReader.ReadBit | lab1-rs/src/huffman.rs:256-261 | the next bit in written order, or `None` exactly when none are left |
| HuffmanMtb.InsertSorted | lab5/src/huffman.rs:96 | inserting adds exactly one element to the multiset |
| HuffmanMtb.InsertSortedSorted | lab5/src/huffman.rs:96 | inserting into a sorted sequence keeps it sorted |
| HuffmanMtb.SortBytes | lab5/src/huffman.rs:96 | `sort` permutes its input |
| HuffmanMtb.SortBytesSpec | lab5/src/huffman.rs:96 | `sort` yields an ascending sequence |
| HuffmanMtb.SortBytesSorted | lab5/src/huffman.rs:120 | sorting a sorted alphabet, as `load` does, changes nothing |
| HuffmanMtb.SymbolCount | lab5/src/huffman.rs:99-101 | as written, `1..=len as u8` queues fewer than 256 symbols |
| HuffmanMtb.RankItems | lab5/src/huffman.rs:99-101 | the queue holds symbols 1..n, each weighted by itself |
| HuffmanMtb.RankItemsValues | lab5/src/huffman.rs:99-101 | the queued values are exactly 1..n |
| HuffmanMtb.BuildMetadata | lab5/src/huffman.rs:98-110 | built metadata keeps the alphabet and the remainder, over a non-empty alphabet |
| HuffmanMtb.LoadSpec | lab5/src/huffman.rs:113-135 | a loaded header has `data[1] + 1` alphabet bytes that lie in the archive, and the remainder from byte 0 |
| HuffmanMtb.DumpSpec | lab5/src/huffman.rs:137-147 | the dump is the remainder, `len - 1`, then the alphabet verbatim |
| HuffmanMtb.BuildMetadataSpec | lab5/src/huffman.rs:98-103 | metadata exists exactly when at least one symbol is queued; its tree has exactly the leaves 1..n and its code is `get_code` of the tree |
| HuffmanMtb.BuildMetadataLength | lab5/src/huffman.rs:98-103 | the tree depends only on the alphabet's length |
| HuffmanMtb.AllBytesLostSymbols | lab5/src/huffman.rs:99 | as written, the input of all 256 byte values gets no symbols and `compress` panics; widened, it gets 256 |
| HuffmanMtb.Position | lab5/src/huffman.rs:203 | `None` exactly when the byte is absent; otherwise the first index holding it |
| HuffmanMtb.EncodeMore | lab5/src/huffman.rs:202-208 | a successful step extends the symbols by one |
| HuffmanMtb.DecodeMore | lab5/src/huffman.rs:277-282 | a successful step extends the output by one |
| HuffmanMtb.MtbEncode | lab5/src/huffman.rs:202-208 | one symbol per input byte |
| HuffmanMtb.MtbDecode | lab5/src/huffman.rs:277-282 | one byte per decoded symbol |
| HuffmanMtb.ByteRoundTrip | lab5/src/huffman.rs:202-208 | decoding one byte's symbol against the same alphabet gives the byte back and moves it to the back in the same way |
| HuffmanMtb.MtbRoundTrip | lab5/src/huffman.rs:196-286 | the decoder's alphabet tracks the encoder's, and decoding the symbols restores the input |
| HuffmanMtb.EncodeByteSpec | lab5/src/huffman.rs:203-206 | a byte of the alphabet gets a symbol in 1..k, and the alphabet stays a permutation of itself |
| HuffmanMtb.MtbEncodeTotal | lab5/src/huffman.rs:202-208 | every byte of the alphabet can be coded, and the alphabet stays a permutation |
| HuffmanMtb.MtbEncodeSymbols | lab5/src/huffman.rs:203-204 | every symbol is in 1..k for a k-byte alphabet |
| HuffmanMtb.MtbDecodeNone | lab5/src/huffman.rs:278 | once a symbol cannot be decoded, every extension fails |
| HuffmanMtb.AlphabetSpec | lab5/src/huffman.rs:90-96 | the alphabet holds every input byte, ascending, once each, at most 256 of them, and is non-empty for non-empty input |
| HuffmanMtb.DecompressArchive | lab5/src/huffman.rs:260-286 | an archive holding a sorted alphabet and the code words of tree leaves decompresses to their move-to-back decoding, or panics exactly where that does |
| HuffmanMtb.RoundTrip | lab5/src/huffman.rs:196-286 | as written, every non-empty input of at most 255 distinct bytes compresses and decompresses back; widened, every non-empty input does |
| HuffmanMtb.CompressCodable | lab5/src/huffman.rs:196-208 | for such an input the tree exists, and every symbol is a leaf with a code word, so no `unwrap` panics |
| HuffmanMtb.LostSymbols | lab5/src/huffman.rs:99 | an input with 256 distinct bytes makes `compress` panic as written, and round-trips widened |
| HuffmanMtb.FromQueue | lab5/src/huffman.rs:36-51 | `from_queue` over the min-heap, the `assert!` on an empty queue included |
| HuffmanMtb.LeafQueue | lab5/src/huffman.rs:37-40 | the first loop empties the queue into a fresh queue of leaves, lightest first |
| HuffmanMtb.MergeTwo | lab5/src/huffman.rs:43-48 | two pops and an insert perform one merge round over the min-heap |
| HuffmanMtb.FillQueue | lab5/src/huffman.rs:98-101 | the fresh queue holds the items of symbols 1..count |
| HuffmanMtb.MetadataOf | lab5/src/huffman.rs:98-103 | the queue, tree and code, as built with `u8` symbols |
| HuffmanMtb.ComputeMetadata | lab5/src/huffman.rs:90-111 | the method computes `compute`'s metadata, or `None` where it panics |
| HuffmanMtb.LoadMetadata | lab5/src/huffman.rs:113-135 | the method computes `load`'s metadata, or `None` on a short archive or with no symbols |
| HuffmanMtb.DumpMetadata | lab5/src/huffman.rs:137-147 | the push loop writes the dump layout |
| HuffmanMtb.DecodeSnoc | lab5/src/huffman.rs:269-283 | decoding one more symbol is one more step |
| HuffmanMtb.CodeBitsNone | lab5/src/huffman.rs:202-208 | once a byte cannot be written, the whole input fails |
| HuffmanMtb.CodeSnoc | lab5/src/huffman.rs:202-208 | writing one more byte takes one more step |
| HuffmanMtb.CodeBitsEncode | lab5/src/huffman.rs:202-208 | with every symbol codable, the loop writes exactly the concatenated code words of the move-to-back symbols |
| HuffmanMtb.EncodeSnocWord | lab5/src/huffman.rs:207 | one more symbol appends its code word |
| HuffmanMtb.WriteSymbols | lab5/src/huffman.rs:200-210 | the writer loop fails exactly where the spec does; otherwise it writes the packed code bits and their padding count |
| HuffmanMtb.Compress | lab5/src/huffman.rs:196-217 | the method writes the specified archive, or `None` where `compress` panics |
| HuffmanMtb.DecodeSnocSome | lab5/src/huffman.rs:277-281 | a symbol within the alphabet emits the byte at its position and moves that byte to the back |
| HuffmanMtb.DecodeStuck | lab5/src/huffman.rs:278 | a symbol past the alphabet spoils every continuation |
| HuffmanMtb.ReadSymbols | lab5/src/huffman.rs:267-285 | the reader-driven loop emits the move-to-back decoding of the tree walk, or `None` where `remove` panics |
| HuffmanMtb.Decompress | lab5/src/huffman.rs:260-286 | the method decompresses as specified, or `None` where it panics |
| Fano.PrefixSums | lab2/src/fano.rs:36-46 | one running total per item |
| Fano.PrefixSumsSpec | lab2/src/fano.rs:36-46 | entry i is the weight of the first i + 1 items, and the totals never decrease, so `pf.last() - pf[m]` at line 111 cannot underflow |
| Fano.WeightSumPrefix | lab2/src/fano.rs:111 | a longer prefix weighs at least as much |
| Fano.PrefixSum | lab2/src/fano.rs:36-46 | the `prefix_sum` loop computes the running totals |
| Fano.Inner | lab2/src/fano.rs:107-128 | once a previous candidate lies in the range, the answer stays in the range; on a range of two or more entries it is never the last one |
| Fano.Partition | lab2/src/fano.rs:106-130 | `None` exactly on an empty list, where `len() - 1` underflows; otherwise an index that, for two or more entries, leaves both halves non-empty |
| Fano.ValuesSplit | lab2/src/fano.rs:52-53 | the values of a list are the values of its two halves, in order |
| Fano.FromWeighs | lab2/src/fano.rs:48-68 | a tree exists exactly for two or more items, and it is a node whose leaves are the items' values in order; one or no item panics |
| Fano.FromWeighsSplit | lab2/src/fano.rs:49-67 | one unfolding at the split `partition` picks |
| Fano.Half | lab2/src/fano.rs:55-65 | a half yields a tree exactly when non-empty, with the half's values as its leaves |
| Fano.InsertByWeight | lab2/src/fano.rs:78 | inserting adds exactly one item |
| Fano.SortByWeight | lab2/src/fano.rs:78 | the sort keeps every item |
| Fano.InsertByWeightSorted | lab2/src/fano.rs:78 | inserting into a weight-ordered list keeps it ordered |
| Fano.SortByWeightSpec | lab2/src/fano.rs:78 | the sort orders by weight and is a permutation |
| Fano.ValuesElems | lab2/src/fano.rs:71-78 | lists with the same items carry the same values |
| Fano.FromHashmapSpec | lab2/src/fano.rs:70-80 | a tree exists exactly for two or more symbols; it is a node whose leaves are exactly the map's keys |
| Fano.BuildFromWeighs | lab2/src/fano.rs:48-68 | the recursive method builds the tree of `from_weighs`, or `None` where it panics |
| Fano.BuildSplit | lab2/src/fano.rs:52-67 | the two recursive halves around the split |
| Fano.BuildHalf | lab2/src/fano.rs:55-65 | the `len() == 1` branch for either half |
| Fano.BuildFromHashmap | lab2/src/fano.rs:70-80 | the method builds the tree of `from_hashmap` |
| Fano.CodeRecDfs | lab2/src/fano.rs:82-97 | the cloned-run recursion builds the same table as the shared-accumulator walk of lab1-rs |
| Fano.FanoCodePaths | lab2/src/fano.rs:99-103 | on a node tree the code gives each leaf its non-empty root path and covers exactly the leaves |
| Fano.FanoCodePrefixFree | lab2/src/fano.rs:99-103 | no code word is a prefix of another |
| Fano.GetCodeRec | lab2/src/fano.rs:82-97 | the method computes the `get_code_rec` table |
| Fano.GetFanoCode | lab2/src/fano.rs:99-103 | the method computes the `get_code` table |
| Fano.BuildMetadataSpec | lab2/src/fano.rs:154-184 | metadata exists exactly for two or more symbols; then it is a node tree coding exactly the keys |
| Fano.ComputeSpecCovers | lab2/src/fano.rs:132-166 | `compute` succeeds exactly when the input holds two distinct bytes; the weights are the ranks, and every input byte has a code |
| Fano.LoadSpecBound | lab2/src/fano.rs:168-184 | a loaded header never reaches past the payload offset at line 310 |
| Fano.ComputeMetadata | lab2/src/fano.rs:155-166 | the method computes `compute`'s metadata, or `None` where it panics |
| Fano.LoadMetadata | lab2/src/fano.rs:168-184 | the method computes `load`'s metadata, or `None` where it panics |
| Fano.DumpMetadata | lab2/src/fano.rs:186-197 | the push loop writes the header layout of lab1-rs |
| Fano.CompressDefined | lab2/src/fano.rs:246-263 | `compress` has a result exactly for inputs with two or more distinct bytes; a one-symbol input panics |
| Fano.DecompressLoaded | lab2/src/fano.rs:306-329 | once the header loads, the output is the tree walk over the kept payload bits |
| Fano.Compress | lab2/src/fano.rs:246-263 | the method writes the specified archive, or `None` where it panics |
| Fano.Decompress | lab2/src/fano.rs:306-329 | the method decompresses as specified, or `None` where loading panics |
| Fano.RoundTrip | lab2/src/fano.rs:246-329 | every input with two distinct bytes compresses, and decompressing gives it back |
| Shannon.Prepend | lab3/src/shannon.rs:338-341 | prepending output keeps success and failure |
| Shannon.ToTree | lab3/src/shannon.rs:33-39 | a full tree maps to a code tree of the same shape and leaves |
| Shannon.StepFull | lab3/src/shannon.rs:331-336 | on a full tree every step succeeds and moves as the plain tree step does |
| Shannon.WalkFull | lab3/src/shannon.rs:329-342 | on a full tree the walk never panics and decodes what the lab1-rs walk decodes |
| Shannon.MissingLeft | lab3/src/shannon.rs:333 | a node with no left child panics on the first `Zero`, whatever follows |
| Shannon.PrependAssoc | lab3/src/shannon.rs:338-341 | emitting `a` then `b` is emitting `a + b` |
| Shannon.WalkStep | lab3/src/shannon.rs:330-341 | the first bit of a walk, split off |
| Shannon.Advance | lab3/src/shannon.rs:331-341 | one loop turn: `None` on a missing child; otherwise the next state and the byte emitted at a leaf |
| Shannon.Decode | lab3/src/shannon.rs:329-342 | the reader-driven loop computes the walk over every remaining bit, or `None` where `unwrap` panics |
| Shannon.ReadCodes | lab3/src/shannon.rs:326-344 | decoding the payload walks the bits the reader keeps |
| PyBits.PyPackCons | lab2-py/lab2.py:44-49 | a leading group of eight bits packs to one leading byte |
| PyBits.PyRemainder | lab2-py/lab2.py:55-61 | the remainder is at most 8 |
| PyBits.PyPackLength | lab2-py/lab2.py:55-61 | one byte per started group of eight bits, and none when nothing was written |
| PyBits.PyPackAppend | lab2-py/lab2.py:44-49 | whole groups of eight pack independently of what follows |
| PyBits.PyPadding | lab2-py/lab2.py:58 | the high bits to drop from the last byte when `r` counts its bits (0 for a full byte) are fewer than 8 |
| PyBits.PyPackLast | lab2-py/lab2.py:55-61 | the last byte's low bits are its group, and the rest is padding |
| PyBits.PyPackRoundTrip | lab2-py/lab2.py:33-61 | reading the bytes in order and dropping `PyPadding(r)` high bits from the last gives back exactly the bits written |
| PyBits.GetByte | lab2-py/lab2.py:38-42 | the `_get_byte` loop packs bit i into position i |
| PyBits.PyBitWriter.constructor | lab2-py/lab2.py:34-36 | a new writer has written nothing |
| PyBits.PyBitWriter.WriteBit | lab2-py/lab2.py:44-49 | the bit is recorded; a full run is flushed first |
| PyBits.PyBitWriter.WriteBits | lab2-py/lab2.py:51-53 | the bits are appended in order |
| PyBits.PyBitWriter.GetBuffer | lab2-py/lab2.py:55-61 | the packing of everything written, with `len(run) % 8` as remainder, or 8 when nothing was written |
| PyBits.PyBitWriter.GetRunBuffer | lab4-py/lab4.py:168-174 | the same bytes, with the length of the pending run as remainder |
| PyBits.RunLength | lab4-py/lab4.py:168-174 | the reported run length is in 1..8 |
| PyBits.RunLengthRoundTrip | lab4-py/lab4.py:146-204 | keeping `r` bits of the last byte and all bits of the others gives back exactly the bits written |
| PyBits.LowBitsStep | lab2-py/lab2.py:78-80 | halving a non-zero byte yields its lowest bit, then the bits of the half |
| PyBits.ByteRun | lab2-py/lab2.py:78-82 | the halving and padding loops yield the byte's eight bits, least significant first; the padding test always compares with 8 because it runs only when the data is non-empty |
| PyBits.SetBits | lab2-py/lab2.py:78-80 | the halving loop yields the bits up to the highest set one, and they pad to the byte's bits |
| PyBits.PyBitReader.constructor | lab2-py/lab2.py:65-70 | the reader will yield every bit of the payload, starting from its last byte |
| PyBits.PyBitReader.NextByte | lab2-py/lab2.py:72-85 | `True` exactly while bytes remain; the bits still to come are unchanged |
| PyBits.PyBitReader.ReadBit | lab2-py/lab2.py:87-91 | the next bit in reading order, or `None` exactly when none are left |
| PyBits.FullRun | lab4-py/lab4.py:188-192 | the halving and padding loops yield the byte's eight bits |
| PyBits.TrimBitReader.constructor | lab4-py/lab4.py:178-182 | the reader will yield the payload's bits in order, the last byte cut to its first `r` |
| PyBits.TrimBitReader.NextByte | lab4-py/lab4.py:184-198 | the bits still to come are unchanged; `False` leaves nothing to read |
| PyBits.TrimBitReader.ReadBit | lab4-py/lab4.py:200-204 | the next bit in written order, or `None` exactly when none are left |
| FanoPy.FirstSeen | lab2-py/lab2.py:156-158 | the dict's keys are distinct and are exactly the input's bytes |
| FanoPy.Counted | lab2-py/lab2.py:156-159 | each key comes with its number of occurrences |
| FanoPy.Ranked | lab2-py/lab2.py:160 | the i-th entry keeps its value and gets weight i |
| FanoPy.Probabilities | lab2-py/lab2.py:155-160 | entry i has weight i |
| FanoPy.SortedCounts | lab2-py/lab2.py:159 | sorting keeps exactly the keys, orders them by count, and keeps each key's own count |
| FanoPy.RankedValues | lab2-py/lab2.py:160 | ranking keeps the values and their order |
| FanoPy.ProbabilitiesElems | lab2-py/lab2.py:155-160 | one entry per distinct input byte, covering every input byte |
| FanoPy.ProbabilitiesOrder | lab2-py/lab2.py:155-160 | entries come in order of non-decreasing frequency |
| FanoPy.RankedOrder | lab2-py/lab2.py:160 | ranking a count-sorted list keeps frequency order |
| FanoPy.CountBytes | lab2-py/lab2.py:156-158 | the counting loop yields the keys in insertion order with their counts |
| FanoPy.RankItems | lab2-py/lab2.py:160 | the `enumerate` loop ranks the sorted items |
| FanoPy.GetProbabilities | lab2-py/lab2.py:155-160 | the method computes `get_probabilities` |
| FanoPy.PairBytes | lab2-py/lab2.py:186-188 | two header bytes per entry |
| FanoPy.PairBytesAt | lab2-py/lab2.py:186-188 | entry i sits at offsets 2i and 2i + 1 as value and weight |
| FanoPy.Header | lab2-py/lab2.py:185-188 | the header is `2 + 2 * len(p)` bytes |
| FanoPy.Pairs | lab2-py/lab2.py:167-170 | pair i is read from offsets `2 + 2i` and `3 + 2i` |
| FanoPy.ReadMetadataSpec | lab2-py/lab2.py:163-171 | `read_metadata` succeeds exactly when every index it reads lies in the archive; the remainder is byte 0 and the list has `data[1]` entries |
| FanoPy.HeaderRoundTrip | lab2-py/lab2.py:163-190 | reading a written header gives back the remainder and the list, whatever follows |
| FanoPy.ReadMetadata | lab2-py/lab2.py:163-171 | the loop reads the header, or `None` where an index runs past the end |
| FanoPy.Covers | lab2-py/lab2.py:181-182 | every input byte has a code word, so `code[byte]` raises no `KeyError` |
| FanoPy.WalkPayload | lab2-py/lab2.py:193-215 | decoding the payload bits over the same tree gives back the input |
| FanoPy.Archive | lab2-py/lab2.py:185-190 | the payload follows the header |
| FanoPy.CompressDefined | lab2-py/lab2.py:174-190 | the byte archive exists exactly for 2 to 255 distinct bytes: fewer break `make_tree`, and a count of 256 has no byte to be written as |
| FanoPy.Loaded | lab2-py/lab2.py:194-196 | the loaded list lies inside the archive |
| FanoPy.LoadArchive | lab2-py/lab2.py:185-196 | the list and tree an archive was written with are the ones `decompress` loads back |
| FanoPy.FixedArchive | lab2-py/lab2.py:193-215 | with the in-order, trimming reader, an archive decodes to the walk of its code bits |
| FanoPy.ReadArchive | lab2-py/lab2.py:64-91 | as written, an archive decodes to the walk over all bits of its payload, read from the last byte |
| FanoPy.CompressArchive | lab2-py/lab2.py:174-190 | a successful `compress` returns the archive of its list and its tree's code bits |
| FanoPy.FixedRoundTrip | lab2-py/lab2.py:174-215 | with the in-order reader, every input of 2 to 255 distinct bytes round-trips through the byte archive |
| FanoPy.CompressTwoBytes | lab2-py/lab2.py:174-190 | `[0, 1]` compresses to `[2, 2, 0, 0, 1, 1, 2]` |
| FanoPy.DecompressTwoBytes | lab2-py/lab2.py:193-215 | as written, that archive decompresses to `[0, 1]` followed by six zero bytes |
| FanoPy.WriteCodes | lab2-py/lab2.py:180-183 | the writer yields the packed code bits and their remainder |
| FanoPy.WriteHeader | lab2-py/lab2.py:185-188 | the metadata loop writes the header |
| FanoPy.WriteArchive | lab2-py/lab2.py:177-190 | the code after `make_tree` writes the archive |
| FanoPy.Compress | lab2-py/lab2.py:174-190 | the method computes the byte archive, or `None` where `compress` raises or its count of 256 cannot become a byte |
| FanoPy.Decode | lab2-py/lab2.py:199-215 | the loop emits the walk of every bit the reader yields |
| FanoPy.DecodeStep | lab2-py/lab2.py:201-214 | one turn consumes one bit, or finds none, and keeps the rest of the walk |
| FanoPy.LoadTree | lab2-py/lab2.py:194-195 | `read_metadata` and `make_tree`, or `None` where either raises |
| FanoPy.Decompress | lab2-py/lab2.py:193-215 | the method computes `decompress` as written |
| FanoPy.DecodePayload | lab2-py/lab2.py:198-215 | the reader over the payload drives the walk over its reversed bytes |
| FanoPy.FixedDecompress | lab2-py/lab2.py:193-215 | the method computes the fixed `decompress` |
| AdaptiveTree.PathPrefix | research/adap_huf.py:85-89 | a prefix of a node path is a path through nodes, and the rest of the path leads from there to the same node |
| AdaptiveTree.ParentNode | research/adap_huf.py:1-31 | the parent of a non-root node is a node, and the node is the child its last bit names |
| AdaptiveTree.PathSnoc | research/adap_huf.py:13-17 | a path one step past a node leads to that child |
| AdaptiveTree.UpdateAt | research/adap_huf.py:22-26 | after a child-slot rewrite, the new node sits at the path |
| AdaptiveTree.UpdateOther | research/adap_huf.py:22-26 | a rewrite leaves every node off its path alone |
| AdaptiveTree.UpdateAbove | research/adap_huf.py:22-26 | above the rewritten node, the nodes are the rewritten subtrees |
| AdaptiveTree.UpdateBag | research/adap_huf.py:22-26 | replacing a node trades its leaves for those of the new node |
| AdaptiveTree.UpdateSelf | research/adap_huf.py:22-26 | putting back the node that is there changes nothing |
| AdaptiveTree.UpdateTwice | research/adap_huf.py:22-26 | a second rewrite at the same path overrides the first |
| AdaptiveTree.UpdateCommute | research/adap_huf.py:59-60 | rewrites at two unrelated paths commute, so the order of the two `replace` calls does not matter |
| AdaptiveTree.UpdateRootWeight | research/adap_huf.py:22-26 | the root keeps its weight when a node below it is replaced |
| AdaptiveTree.LeafInBag | research/adap_huf.py:1-10 | every leaf of the tree is in its bag of leaves |
| AdaptiveTree.BagLeaf | research/adap_huf.py:1-10 | every element of the bag is the leaf at some path |
| AdaptiveTree.Bumped | research/adap_huf.py:100 | `weight += 1` raises the weight by one and keeps the rest of the node |
| AdaptiveTree.MakeSwapTwice | research/adap_huf.py:19-20 | `make_swap` twice gives back the tree |
| AdaptiveTree.SwapNodesDefined | research/adap_huf.py:55-61 | `swap_nodes` fails exactly on a root, or on a node and its proper ancestor |
| AdaptiveTree.SwapNodesSpec | research/adap_huf.py:55-61 | on two distinct nodes, a successful swap puts each where the other was, keeps the leaves, and keeps the root's weight |
| AdaptiveTree.SwapSiblings | research/adap_huf.py:56-57 | siblings are exchanged by `make_swap` on their parent |
| AdaptiveTree.SwapApart | research/adap_huf.py:58-61 | unrelated nodes are exchanged by the two `replace` calls |
| AdaptiveTree.SwapNodesTwice | research/adap_huf.py:55-61 | swapping the same two nodes twice gives back the tree |
| AdaptiveTree.SwapApartTwice | research/adap_huf.py:58-61 | the two `replace` calls undo themselves |
| AdaptiveTree.FindLeader | research/adap_huf.py:34-52 | a found leader is a node of the requested weight |
| AdaptiveTree.FindLeaderComplete | research/adap_huf.py:34-52 | the search fails only when no node has the weight |
| AdaptiveTree.FindLeaderHighest | research/adap_huf.py:34-52 | no proper ancestor of the leader has the weight |
| AdaptiveTree.Dfs | research/adap_huf.py:64-82 | a found code leads to a leaf passing the filter; otherwise the code is empty |
| AdaptiveTree.DfsComplete | research/adap_huf.py:64-82 | the search fails only when no leaf passes the filter |
| AdaptiveTree.FindChar | research/adap_huf.py:123-125 | a found code leads to a leaf holding the byte |
| AdaptiveTree.FindCharFound | research/adap_huf.py:123-125 | `find_char` finds the byte exactly when some leaf holds it |
| AdaptiveTree.NytPath | research/adap_huf.py:107 | the code `dfs(fweight=0)` returns is a path of the tree |
| AdaptiveTree.SplitSpec | research/adap_huf.py:106-118 | after the split the new weight-0 leaf sits right of the old node, and exactly that leaf is added |
| AdaptiveTree.BumpBag | research/adap_huf.py:100-103 | raising a weight changes only the leaf raised, if it is one |
| AdaptiveTree.BumpRoot | research/adap_huf.py:100-103 | raising a weight keeps a node root a node, and raises the root's weight only at the root |
| AdaptiveTree.ClimbSpec | research/adap_huf.py:92-103 | a successful `increase_weights` raises the root's weight by one, keeps a node root a node, and changes at most the starting leaf, raising its weight by one |
| AdaptiveTree.ClimbStep | research/adap_huf.py:97-101 | one level: raise the node, then climb from its parent |
| AdaptiveTree.InsertCharSpec | research/adap_huf.py:106-120 | a successful `insert_char` into a tree with a weight-0 leaf adds one leaf of weight one for the byte, raises the root's weight by one, and leaves a node root |
| Adaptive.Prepend | lab4-py/lab4.py:258 | prepending output keeps success and failure and puts the output in front |
| Adaptive.PrependAssoc | lab4-py/lab4.py:258 | emitting `a` then `b` is emitting `a + b` |
| Adaptive.WalkTo | lab4-py/lab4.py:240-244 | reading the rest of a leaf's code from a node above it reaches that leaf |
| Adaptive.NytFound | lab4-py/lab4.py:125 | a tree holding the NYT leaf has a weight-0 leaf that `dfs(fweight=0)` finds |
| Adaptive.EncodeKnown | lab4-py/lab4.py:219-222 | a known byte is sent as its code, and the tree is the one after `increase_weights` |
| Adaptive.EncodeNew | lab4-py/lab4.py:214-218 | a new byte is sent as the NYT code and its eight raw bits, and the tree is the one after `insert_char` |
| Adaptive.KnownDecode | lab4-py/lab4.py:240-259 | decoding a positive-weight leaf's code yields its byte and increases its weight, as the encoder did |
| Adaptive.KnownValid | lab4-py/lab4.py:219-222 | raising a byte leaf keeps the coder's tree invariant, and that leaf had positive weight |
| Adaptive.BumpValid | lab4-py/lab4.py:110-121 | trading one non-NYT leaf for a heavier one keeps the leaf invariant |
| Adaptive.NewDecode | lab4-py/lab4.py:246-253 | decoding the NYT code and eight raw bits yields the byte and inserts it; from the initial leaf the leading 0 bit stands for the empty NYT code |
| Adaptive.AfterNyt | lab4-py/lab4.py:248-253 | at a weight-0 leaf, the raw bits of a byte insert that byte |
| Adaptive.NewValid | lab4-py/lab4.py:124-138 | inserting a byte keeps the invariant and makes the root a node |
| Adaptive.EncodeRoundTrip | lab4-py/lab4.py:207-260 | from a valid tree, decoding what the encoder wrote for bytes other than the NYT value gives them back |
| Adaptive.BitsRoundTrip | lab4-py/lab4.py:207-260 | the leading 0 bit plus the codes of non-empty data decode back to the data |
| Adaptive.InitialNew | lab4-py/lab4.py:208-218 | the first byte is always new: the initial leaf is the NYT leaf with the empty code |
| Adaptive.EncodeCons | lab4-py/lab4.py:212-222 | one byte's bits come first, then the rest from the tree it leaves |
| Adaptive.RoundTrip | lab4-py/lab4.py:207-260 | `decompress(compress(data)) == data` for non-empty data avoiding the NYT value, whenever `compress` succeeds |
| Adaptive.FixedRoundTrip | lab4-py/lab4.py:207-260 | with an NYT leaf no byte can equal, every non-empty input that compresses comes back |
| Adaptive.ZeroCollides | lab4-py/lab4.py:208-218 | as written, the input `[0]` compresses to the archive of the empty input, and that archive does not decompress |
| Adaptive.EmptyInput | lab4-py/lab4.py:223-232 | the empty input compresses to `[1, 0]`, which does not decompress |
| Adaptive.SilentArchive | lab4-py/lab4.py:223-224 | input that sends no bit after the leading one compresses to `[1, 0]` |
| Adaptive.Finished | lab4-py/lab4.py:223-224 | once the loop finishes, the bits written make up the archive |
| Adaptive.ToBin | lab4-py/lab4.py:4-9 | `to_bin` yields the byte's eight bits, least significant first |
| Adaptive.ToBinStep | lab4-py/lab4.py:6-8 | one turn of the `to_bin` loop |
| Adaptive.Compress | lab4-py/lab4.py:207-224 | the method computes `compress`, or `None` where a tree operation fails |
| Adaptive.CodeAll | lab4-py/lab4.py:212-224 | the loop after the leading bit yields the specified archive, or fails exactly where the spec does |
| Adaptive.CodeSymbol | lab4-py/lab4.py:213-222 | one byte's bits are written and the next tree is returned, failing exactly where the spec does |
| Adaptive.DecodeCons | lab4-py/lab4.py:236-259 | one bit of the loop: a step down, then the leaf branch if a leaf is reached |
| Adaptive.ReadRaw | lab4-py/lab4.py:249-252 | eight `read_bit` calls take the next eight bits, or fail when fewer remain |
| Adaptive.Decompress | lab4-py/lab4.py:227-260 | the method computes `decompress`, or `None` where it fails |
| Adaptive.Advance | lab4-py/lab4.py:240-259 | the rest of one pass after a bit is read keeps the rest of the decoding |
| Adaptive.LeafStep | lab4-py/lab4.py:246-259 | the leaf branch yields the byte and the next tree, and keeps the rest of the decoding |
| Matching.MatchesAt | lab7/src/lz77.rs:1-8 | item i of a matching run equals item i of the run it matches |
| Matching.LzMatch | lab7/src/lz77.rs:1-8 | `lz_match` is true exactly when the two runs agree at every position |
| Lz77.FirstOffset | lab7/src/lz77.rs:19-29 | a found offset lies in `off..window`, does not reach before the start, and its back run matches |
| Lz77.Scan | lab7/src/lz77.rs:17-33 | the remembered `(length, offset)` always names a real match that leaves room for the literal |
| Lz77.Emit | lab7/src/lz77.rs:34-40 | each triple moves `ptr` forward, and never past the end |
| Lz77.CopyBack | lab7/src/lz77.rs:78-80 | an overlapping back copy keeps the output and extends it by `n` items |
| Lz77.TripleBytes | lab7/src/lz77.rs:50-57 | four bytes per triple |
| Lz77.Serialize | lab7/src/lz77.rs:46-60 | four bytes per triple, in order |
| Lz77.Parse | lab7/src/lz77.rs:66 | one triple per whole four-byte block |
| Lz77.FirstOffsetLeast | lab7/src/lz77.rs:19-29 | the search takes the smallest matching offset, and it misses none |
| Lz77.EncodeBounds | lab7/src/lz77.rs:10-44 | every triple keeps the encoder's bounds: offsets inside the window, lengths under the cap, and offset 0 with a bare literal |
| Lz77.EncodeFromStep | lab7/src/lz77.rs:14-41 | one round of the outer loop emits one triple and continues after it |
| Lz77.CopyBackMatch | lab7/src/lz77.rs:78-80 | copying a run that matches its source `o` places back extends the decoded prefix by that run |
| Lz77.StepEmit | lab7/src/lz77.rs:34-40 | decoding an emitted triple appends exactly the input it covers |
| Lz77.DecodeEncode | lab7/src/lz77.rs:10-86 | decoding what the encoder emits from `ptr`, after the first `ptr` items, gives back the whole input, for every window and cap |
| Lz77.SerializeAt | lab7/src/lz77.rs:50-57 | byte j of block k is byte j of triple k |
| Lz77.ParseSerialize | lab7/src/lz77.rs:46-72 | reading back the blocks of triples that fit gives the same triples |
| Lz77.RoundTrip | lab7/src/lz77.rs:46-86 | `decompress(compress(d)) == d` for every input, the empty one included |
| Lz77.TrailingIgnored | lab7/src/lz77.rs:66 | bytes after the last whole block are ignored |
| Lz77.FindOffset | lab7/src/lz77.rs:19-29 | the offset loop with its `break` finds the first matching offset |
| Lz77.LongestMatch | lab7/src/lz77.rs:15-33 | the inner loop yields the last match it remembered |
| Lz77.EncodeTriples | lab7/src/lz77.rs:10-44 | the encoder's loops emit the specified triples |
| Lz77.EmitAt | lab7/src/lz77.rs:15-40 | one round of the outer loop |
| Lz77.Lz77Encode | lab7/src/lz77.rs:10-44 | the triples have lengths below 256 and offsets inside the window |
| Lz77.Compress | lab7/src/lz77.rs:46-60 | the archive is the specified one, and it decompresses to the input |
| Lz77.Decompress | lab7/src/lz77.rs:62-86 | the method decodes the blocks in order, or `None` where an index panics |
| Lz77Py.PyIndex | research/lz77.py:50 | Python indexing succeeds exactly for `-len <= k < len`, and agrees with plain indexing on `0 <= k < len` |
| Lz77Py.PyCopyBack | research/lz77.py:49-50 | a successful copy adds `n` items |
| Lz77Py.PyCopyBackAgrees | research/lz77.py:49-50 | where the copy stays inside the output, Python indexing is plain indexing |
| Lz77Py.PyDecodeAgrees | research/lz77.py:41-53 | on every triple sequence the Rust decoder accepts, the Python decoder gives the same output |
| Lz77Py.DecodeInvertsEncode | research/lz77.py:11-53 | decoding the encoder's triples gives back the message, for every window size |
| Lz77Py.NegativeIndexWraps | research/lz77.py:50 | a copy reaching one place before the start wraps to the end of the list, where lab7 panics |
| Lz77Py.Lz77Encode | research/lz77.py:11-38 | the encoder's triples decode back to the message and keep the encoder's bounds |
| Lz77Py.Lz77Decode | research/lz77.py:41-53 | the decoding loops compute the Python decoder, or `None` on an `IndexError` |
| Lz78.Add | lab8/src/lz78.rs:42-45 | a new entry carries code `len + 1` while the dictionary has room for 4096, and nothing changes after that |
| Lz78.AddGood | lab8/src/lz78.rs:42-53 | adding an entry for a run already produced keeps every code and every run valid |
| Lz78.FindEntry | lab8/src/lz78.rs:23-34 | a found entry has length `l` and matches at `ptr`; when none is found, no entry of that length matches |
| Lz78.Scan | lab8/src/lz78.rs:19-38 | the remembered entry stays under the 256 cap and leaves room for the literal |
| Lz78.ScanMatches | lab8/src/lz78.rs:19-38 | the entry the inner loop settles on matches at `ptr` |
| Lz78.Emit | lab8/src/lz78.rs:39-54 | each pair moves `ptr` forward, and never past the end |
| Lz78.EncodeFromStep | lab8/src/lz78.rs:18-55 | one round of the outer loop emits one pair and continues after it |
| Lz78.PairBytes | lab8/src/lz78.rs:64-69 | three bytes per pair |
| Lz78.Serialize | lab8/src/lz78.rs:60-72 | three bytes per pair, in order |
| Lz78.DecodeBlock | lab8/src/lz78.rs:87-105 | a block decodes exactly when its code is 0 or names an existing entry, and then it extends the output |
| Lz78.DecodeFromStep | lab8/src/lz78.rs:81-106 | one block is decoded off the front of the remaining bytes, and a failed block fails the whole |
| Lz78.EncodeCodes | lab8/src/lz78.rs:12-58 | every code the encoder emits is 0 or names an existing entry, so it is at most 4096 |
| Lz78.PhraseCopy | lab8/src/lz78.rs:95-98 | the run an entry names in the decoded prefix is the phrase at the encoder's `ptr` |
| Lz78.DecodePhrase | lab8/src/lz78.rs:94-105 | for a pair naming a matching entry, the decoder copies the phrase, appends the literal and adds the same entry as the encoder |
| Lz78.DecodeStep | lab8/src/lz78.rs:39-54 | from the encoder's state, the decoder rebuilds the phrase, the literal and the same next dictionary |
| Lz78.PairBytesCode | lab8/src/lz78.rs:65-67 | the two low bytes of a code below 65536 read back as that code |
| Lz78.DecodeEncode | lab8/src/lz78.rs:12-109 | decoding the pairs emitted from `ptr`, with the same dictionary, gives back the rest of the input |
| Lz78.RoundTrip | lab8/src/lz78.rs:60-109 | `decompress(compress(d)) == d` for every input, the empty one included |
| Lz78.EncodeLength | lab8/src/lz78.rs:18-55 | the encoder emits at most one pair per input byte |
| Lz78.CompressLength | lab8/src/lz78.rs:60-72 | the archive holds at most three bytes per input byte |
| Lz78.UnknownCode | lab8/src/lz78.rs:95 | a first block with a nonzero code names no entry and fails |
| Lz78.SerializeCons | lab8/src/lz78.rs:64-69 | the bytes of a pair come before the bytes of the rest |
| Lz78.SerializeSnoc | lab8/src/lz78.rs:64-69 | each push appends its pair's bytes at the end |
| Lz78.Push | lab8/src/lz78.rs:42-45 | the push keeps `count == dict.len() + 1` |
| Lz78.SearchDict | lab8/src/lz78.rs:23-34 | the backward loop with `continue` and `break` finds the newest entry of length `l` that matches |
| Lz78.LongestEntry | lab8/src/lz78.rs:19-38 | the inner loop yields the entry of the last length that matched |
| Lz78.EmitAt | lab8/src/lz78.rs:39-54 | one round of the outer loop emits the specified pair and entry |
| Lz78.EncodeStep | lab8/src/lz78.rs:18-55 | the outer loop's round continues the specified pairs |
| Lz78.Lz78Encode | lab8/src/lz78.rs:12-58 | the encoder's loops emit the specified pairs, whose codes are at most 4096 |
| Lz78.Compress | lab8/src/lz78.rs:60-72 | the archive is the specified one, and it decompresses to the input |
| Lz78.Block | lab8/src/lz78.rs:87-105 | a block succeeds exactly when its code is known, and then it keeps `count` and `ptr` in step |
| Lz78.CopyRun | lab8/src/lz78.rs:96-98 | the copy loop appends the named run of the output |
| Lz78.Decompress | lab8/src/lz78.rs:74-109 | the method computes the specified decoding, or `None` where it panics |
| Container.DumpU32 | lab11/src/lzw.rs:125-131 | four bytes per word |
| Container.ReadDump | lab11/src/lzw.rs:125-141 | `read_u32` reads back the word `dump_u32` wrote, whatever comes before or after it |
| Container.DumpRead | lab11/src/lzw.rs:133-141 | every four bytes are the dump of the word read from them, so the two are inverse |
| Container.AppendU32 | lab11/src/lzw.rs:125-131 | the four pushes append the word's bytes, and the word reads back from them |
| Container.AppendAll | lab11/src/lzw.rs:155-157 | the copy loop appends the whole archive |
| Container.SplitData | lab11/src/lzw.rs:111-123 | each plane has `len / 3` bytes, and plane `c` holds byte `3i + c` of the input |
| Container.Interleaved | lab11/src/lzw.rs:218-222 | three bytes per triple |
| Container.Interleave | lab11/src/lzw.rs:218-222 | the interleaving succeeds exactly when the green and blue planes are at least as long as the red one |
| Container.InterleavedAt | lab11/src/lzw.rs:218-222 | position `3i + c` of the output holds byte `i` of plane `c` |
| Container.InterleaveSplit | lab11/src/lzw.rs:111-123 | interleaving the split planes gives back every whole triple of the input |
| Container.SplitRoundTrip | lab11/src/lzw.rs:111-123 | splitting then interleaving gives back the whole triples of the input, and the whole input when its length is a multiple of 3 |
| Container.SplitInterleave | lab11/src/lzw.rs:218-222 | splitting an interleaving gives back its planes, cut to the red plane's length |
| Container.SplitChannels | lab11/src/lzw.rs:111-123 | the loop computes the split |
| Container.InterleaveChannels | lab11/src/lzw.rs:218-222 | the loop computes the interleaving, or `None` where it indexes past a plane |
| Container.Sized | lab11/src/lzw.rs:154-157 | a length word in front of the archive |
| Container.GrayBytes | lab11/src/lzw.rs:172-186 | a gray frame is 13 bytes of header and the archive, with tag 0 |
| Container.RgbBytes | lab11/src/lzw.rs:143-170 | an RGB frame is 21 bytes of header and the three archives, with tag 1 |
| Container.ParseFrame | lab11/src/lzw.rs:188-213 | the three archives of a parsed RGB frame fit inside the data with their headers |
| Container.ReadDimensions | lab11/src/lzw.rs:190-192 | the width and height read back from the header |
| Container.ParseGray | lab11/src/lzw.rs:172-195 | a gray frame parses back as its dimensions and its archive, whatever the archive's length |
| Container.ReadSized | lab11/src/lzw.rs:199-212 | a length-prefixed archive under 2^32 bytes reads back whole at its offset |
| Container.ParseRgb | lab11/src/lzw.rs:143-213 | an RGB frame whose archives are each under 2^32 bytes parses back as its dimensions and archives |
| Container.WriteGray | lab11/src/lzw.rs:176-183 | the pushes write the gray frame |
| Container.WriteRgb | lab11/src/lzw.rs:150-167 | the pushes write the RGB frame |
| Container.ReadFrame | lab11/src/lzw.rs:188-213 | the reads with the moving `shift` parse the frame, or `None` where they index past the data |
| Lzw.DecompressSpec | lab11/src/lzw.rs:188-226 | a decompressed image carries the dimensions of the frame's header |
| Lzw.GrayRoundTrip | lab11/src/lzw.rs:172-226 | a gray image decompresses back to its pixels and dimensions, for every image |
| Lzw.RgbRoundTrip | lab11/src/lzw.rs:143-226 | an RGB image under 2^32 bytes decompresses back to its whole pixel triples and its dimensions |
| Lzw.CompressGray | lab11/src/lzw.rs:172-186 | the frame is the specified one, and it decompresses back to the image |
| Lzw.CompressRgb | lab11/src/lzw.rs:143-170 | the frame is the specified one, and under 2^32 bytes it decompresses back to the whole pixel triples |
| Lzw.Decompress | lab11/src/lzw.rs:188-226 | the method computes the specified decoding, or `None` where it panics |
| Rle.FromByte | lab10/src/rle.rs:98-99 | `as i8` is undone by `as u8`, and the result is negative exactly for bytes of 128 and above |
| Rle.FromToByte | lab10/src/rle.rs:163-165 | `as u8` is undone by `as i8` |
| Rle.Bytes | lab10/src/rle.rs:98-100 | each signed byte cast in place |
| Rle.Signed | lab10/src/rle.rs:163-165 | each byte cast in place |
| Rle.SignedBytes | lab10/src/rle.rs:98-100 | casting an archive to bytes and back changes nothing |
| Rle.Repeat | lab10/src/rle.rs:146-148 | `n` copies of the byte |
| Rle.Span | lab10/src/rle.rs:135-149 | every block takes at least the control byte |
| Rle.WellFormedAppend | lab10/src/rle.rs:23-52 | two archives of whole blocks make one |
| Rle.UniqueChunksShape | lab10/src/rle.rs:1-11 | the literal chunks are whole blocks with controls in -127..=-1, adding at most one control per literal |
| Rle.RepeatPairsShape | lab10/src/rle.rs:13-21 | the repeat pairs are whole blocks: a count in 1..=127 at every even position and the byte at every odd one |
| Rle.RleEncodeSpec | lab10/src/rle.rs:23-52 | the encoder panics exactly on empty input |
| Rle.DecodeAppend | lab10/src/rle.rs:131-153 | an archive of whole blocks decodes, and what follows it is decoded after it |
| Rle.DecodeUnique | lab10/src/rle.rs:1-11 | the literal chunks decode to the buffered bytes |
| Rle.DecodeRepeat | lab10/src/rle.rs:13-21 | the repeat pairs decode to `repeat` copies of the byte |
| Rle.FlushDecodes | lab10/src/rle.rs:36-42 | the flush at a run boundary decodes to the buffered literals and then the run |
| Rle.DecodeEncode | lab10/src/rle.rs:23-153 | given the decoded prefix, the buffered literals and the current run, the rest of the encoding decodes to the rest of the input |
| Rle.RoundTrip | lab10/src/rle.rs:23-153 | `rle_decode(rle_encode(d)) == d` for every non-empty input |
| Rle.EncodeWellFormed | lab10/src/rle.rs:23-52 | every control the encoder writes is in -127..=-1 or 1..=127 and is followed by its whole block |
| Rle.WellFormedDecodes | lab10/src/rle.rs:131-153 | every archive of whole blocks decodes without a panic |
| Rle.EncodeLength | lab10/src/rle.rs:23-52 | the encoding from any state is at most two signed bytes per byte still to be written |
| Rle.EncodedLength | lab10/src/rle.rs:23-52 | the archive is at most twice the input |
| Rle.UniqueChunksStep | lab10/src/rle.rs:3-10 | one round of `dump_unique` writes one chunk of `min(127, len - ptr)` literals and leaves the rest to later rounds |
| Rle.PushLiterals | lab10/src/rle.rs:6-8 | the loop appends the chunk's literals as signed bytes |
| Rle.DumpUnique | lab10/src/rle.rs:1-11 | the loop appends the literal chunks |
| Rle.DumpRepeat | lab10/src/rle.rs:13-21 | the loop appends the repeat pairs |
| Rle.RleEncode | lab10/src/rle.rs:23-52 | the encoder computes the specified archive, which is made of whole blocks and decodes back to the input |
| Rle.CopyLiterals | lab10/src/rle.rs:139-141 | the loop copies `n` literals, or panics when they run past the end |
| Rle.PushRepeat | lab10/src/rle.rs:146-148 | the loop appends `n` copies of the byte |
| Rle.RleDecode | lab10/src/rle.rs:131-153 | the decoder computes the specified decoding, or `None` where it panics |
| Rle.Archive | lab10/src/rle.rs:115-129 | a plane's archive exists exactly when the plane is non-empty |
| Rle.ChannelRoundTrip | lab10/src/rle.rs:89-166 | a plane's archive decodes back to the plane and is at most twice its length |
| Rle.GraySpec | lab10/src/rle.rs:115-129 | `compress_gray` panics exactly on an empty image |
| Rle.RgbSpec | lab10/src/rle.rs:86-113 | `compress_rgb` panics exactly when an image has fewer than three bytes |
| Rle.DecompressSpec | lab10/src/rle.rs:155-205 | a decompressed image carries the dimensions of the frame's header |
| Rle.GrayRoundTrip | lab10/src/rle.rs:115-205 | a non-empty gray image decompresses back to its pixels and dimensions |
| Rle.RgbRoundTrip | lab10/src/rle.rs:86-205 | an RGB image of 3 to 2^32 bytes decompresses back to its whole pixel triples and its dimensions |
| Rle.ToBytes | lab10/src/rle.rs:98-100 | the loop casts the archive to bytes |
| Rle.ToSigned | lab10/src/rle.rs:163-165 | the loop casts the bytes to signed bytes |
| Rle.CompressChannel | lab10/src/rle.rs:89-100 | one plane's archive is the specified one |
| Rle.DecompressChannel | lab10/src/rle.rs:172-193 | one plane decodes as specified |
| Rle.CompressGray | lab10/src/rle.rs:115-129 | the frame is the specified one, and it decompresses back to the image |
| Rle.CompressRgb | lab10/src/rle.rs:86-113 | the frame is the specified one, and under 2^32 bytes it decompresses back to the whole pixel triples |
| Rle.Decompress | lab10/src/rle.rs:155-205 | the method computes the specified decoding, or `None` where it panics |

## Left out

- Command-line front ends, file and image I/O and the printing demos (lab1-rs/src/main.rs, lab11/src/main.rs, lab6/src/main.rs, the `main` functions and `print` calls of lab2-py and lab4-py): they move data between files and the coders. The one place where this does more is lab2-py's `main`, which turns the list `compress` returns into bytes with `bytearray` (lab2-py/lab2.py:237); see the FanoPy lines below.
- FanoPy.CompressDefined: lab2-py's `compress` returns a Python list of integers, and for an input holding all 256 byte values that list carries the count 256 at index 1 without raising (lab2-py/lab2.py:185). Only `bytearray` in `main` rejects it. The model's archive is a sequence of bytes, so it gives `None` for that input already at `compress`.
- FanoPy.Compress: `None` for 256 distinct bytes, for the same reason; the list-level result of `compress` on that input is not modelled.
- FanoPy.FixedRoundTrip: covers 2 to 255 distinct bytes only. For 256 distinct bytes the list-level archive never becomes bytes, and its round trip inside one Python process is not modelled.
- The timing scripts measure/measure.py and measure_img/measure.py: they run the programs as subprocesses and time them.
- The floating-point part of lab3/src/shannon.rs (`get_probabilities`, `prefix_sum`, `get_code`, `get_bits`, `Metadata::dump/load`, `compress`): it computes with `f32` and `log2`, calls a `from_code` that is commented out, and writes header entries with a different stride than it reads, so only its bit codec and decoding walk are modelled.
- lab6's `gilbert_moore` module is not part of this model.
- `HashMap` iteration order: headers are written in ascending byte order, because the standard library leaves the order unspecified. Where weights are distinct (lab1-rs, lab2) no result depends on the order.
- `BinaryHeap` tie-breaking: `pop` takes the first greatest (lab1-rs) or least (lab5) item in insertion order. Encoder and decoder use the same queue, so they build the same tree whichever choice the heap makes.
- `std::mem::transmute` between `u32` and `[u8; 4]` is modelled as little-endian, low byte first; a big-endian machine would write the bytes the other way round.
- Weights, counts and lengths are unbounded `nat`s. The model does not cover `u32` overflow of a weight on inputs of 2^32 bytes or more. It also does not cover the truncating `as u8` of a weight or rank above 255. lab1-rs and lab2 write ranks below 256, so that truncation never applies there.
- The adaptive Huffman trees of lab4-py and research/adap_huf.py are values whose nodes are addressed by their path from the root; `parent` links are path prefixes. The model therefore does not capture object identity, aliasing or a `swap_nodes` that builds a cycle; a swap of the root or of a node with its ancestor is a failure (`None`).
- Python's recursion limit of 1000 is the fuel of `increase_weights` (`AdaptiveTree.RecursionLimit`); a longer chain is a failure.
- Adaptive.RoundTrip: holds whenever `compress` succeeds. The model does not prove that the tree operations always succeed within the recursion limit.
- Adaptive.FixedRoundTrip: conditional on `compress` succeeding, for the same reason.
- The FGK sibling property is not claimed: `find_leader` may return the root, and the source keeps no such invariant. The model states only the structural effect of each tree operation.
- lab11's `lzw_encode`, `lzw_compress` and `lzw_decompress` are lab8's LZ78 functions under other names, so module Lzw uses module Lz78 for the plane coder.
- Lzw.RgbRoundTrip: requires fewer than 2^32 pixel bytes, so that each plane archive's length survives the `as u32` cast of `compress_rgb`; an archive of 2^32 bytes or more has its length word truncated.
- Rle.RgbRoundTrip: requires fewer than 2^32 pixel bytes, for the same reason, and at least 3, because an empty plane panics in `rle_encode`.
- Lzw.CompressRgb: the round trip it states is conditional on fewer than 2^32 pixel bytes, as for Lzw.RgbRoundTrip.
- Rle.CompressRgb: the round trip it states is conditional on fewer than 2^32 pixel bytes, as for Rle.RgbRoundTrip.
- Platform limits such as memory exhaustion and `usize` overflow are outside the model.
- Rle.RleDecode: a control byte of -128 is modelled as a panic in `repeat.abs()` (lab10/src/rle.rs:142), which is what a build with overflow checks (a debug build) does. In a release build `i8::abs(-128)` stays -128, `as usize` gives 2^64 - 128, and `ptr` wraps around, so the decoder goes on from 127 bytes earlier or leaves its loop; that behaviour is not modelled. The encoder never writes -128, so the round trips do not depend on it. Rle.DecodeFrom and Rle.Decompress follow the same choice, and integer overflow elsewhere in the model is likewise taken to panic as in a debug build.
- lab3's `BitWriter` and `BitReader` are the same code as those of lab1-rs and lab5, so module BitCodec serves all three labs.
- lab1-rs/src/huffman.rs:41-42 call `huf_queue.len()`, which lab1-rs/src/priority_queue.rs does not define. The model uses the queue's item count.
- lab2's `Weighted` is imported from a module that is not part of this model, so it is taken to be a weight and a value.

## Findings

| source | as written | input that shows it | evidently intended | confidence | as-written member | corrected member |
|---|---|---|---|---|---|---|
| lab5/src/huffman.rs:99 | `1..=alphabet.len() as u8` truncates the alphabet size to a byte, so 256 distinct bytes give an empty range, an empty queue and a failed assertion in `from_queue`; `load` repeats the truncation at line 123 | any input holding all 256 byte values | one symbol per alphabet entry for every alphabet size | high (not executed) | HuffmanMtb.AllBytesLostSymbols, HuffmanMtb.LostSymbols | HuffmanMtb.RoundTrip (variant `Widened`) |
| lab2-py/lab2.py:67 | the reader reverses the payload bytes and pads every byte to 8 bits (lines 81-82), never using the stored remainder `r` | `[0, 1]`, whose archive `[2, 2, 0, 0, 1, 1, 2]` decompresses to `[0, 1, 0, 0, 0, 0, 0, 0]` | read the bytes in order and drop the padding of the last byte | high (not executed) | FanoPy.DecompressTwoBytes, FanoPy.ReadArchive | FanoPy.FixedRoundTrip, FanoPy.FixedDecompress |
| lab4-py/lab4.py:208 | the initial NYT leaf is `Leaf(0, 0)`, carrying value 0, so `find_char(root, 0)` finds the NYT marker (the decoder repeats it at line 230) | `[0]`, which compresses to the archive of `[]`, and that archive does not decompress | an NYT marker no byte can equal | high (not executed) | Adaptive.ZeroCollides | Adaptive.FixedRoundTrip |
