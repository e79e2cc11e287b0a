/**
 * The LZ78 pair coder of lab8/src/lz78.rs (lab11/src/lzw.rs carries the same
 * three functions under other names; see module Lzw).
 *
 * The dictionary is a list of `(pos, len, code)` entries naming runs of the
 * input itself. At each position the encoder grows a match length `l` from 1,
 * searching the dictionary from its newest entry down for one of length `l`
 * whose run equals the run at `ptr`; it emits `(code, literal)` for the
 * last length that matched, or `(0, literal)`, and, while the dictionary holds
 * fewer than 4096 entries, adds the run just emitted (phrase and literal) as
 * a new entry. The decoder grows the same dictionary over its own output.
 */
module Lz78 {
  import opened Common
  import opened Matching

  /** `DICT_SIZE` */
  const DictSize: nat := 4096

  /** The encoder stops growing a match once `l` reaches 256. */
  const MatchCap: nat := 256

  /** A dictionary entry: the run `s[pos..pos + len]`, known by `code`. */
  datatype Entry = Entry(pos: nat, len: nat, code: nat)

  /** An emitted pair: the code of the matched entry (0 for none) and the literal after it. */
  datatype Pair = Pair(code: nat, literal: byte)

  // ---------------------------------------------------------------------
  // Dictionary invariants
  // ---------------------------------------------------------------------

  /** `count == dict.len() + 1` at every push: entry i carries code i + 1. */
  predicate Coded(dict: seq<Entry>)
  {
    forall i :: 0 <= i < |dict| ==> dict[i].code == i + 1
  }

  /** Every entry names a run inside the first `n` items. */
  predicate Within(dict: seq<Entry>, n: nat)
  {
    forall i :: 0 <= i < |dict| ==> dict[i].pos + dict[i].len <= n
  }

  /** The invariant both coders keep after producing `n` items. */
  predicate Good(dict: seq<Entry>, n: nat)
  {
    |dict| <= DictSize && Coded(dict) && Within(dict, n)
  }

  /** `if dict.len() < DICT_SIZE { dict.push((pos, len, count)); count += 1; }` */
  function Add(dict: seq<Entry>, pos: nat, len: nat): (r: seq<Entry>)
    ensures |dict| < DictSize ==> r == dict + [Entry(pos, len, |dict| + 1)]
    ensures |dict| >= DictSize ==> r == dict
  {
    if |dict| < DictSize then dict + [Entry(pos, len, |dict| + 1)] else dict
  }

  lemma AddGood(dict: seq<Entry>, n: nat, pos: nat, len: nat, m: nat)
    requires Good(dict, n) && n <= m && pos + len <= m
    ensures Good(Add(dict, pos, len), m)
  {
  }

  // ---------------------------------------------------------------------
  // Specification of the encoder
  // ---------------------------------------------------------------------

  /** The `for i in (0..dict.len()).rev()` search among the first `n` entries: the newest one of length `l` whose run matches at `ptr`. */
  function FindEntry(s: seq<byte>, dict: seq<Entry>, ptr: nat, l: nat, n: nat): (r: Option<nat>)
    requires n <= |dict|
    ensures r.Some? ==> r.value < n && dict[r.value].len == l && Matches(s, dict[r.value].pos, ptr, l)
    ensures r.None? ==> forall i :: 0 <= i < n ==> !(dict[i].len == l && Matches(s, dict[i].pos, ptr, l))
  {
    if n == 0 then None
    else if dict[n - 1].len == l && Matches(s, dict[n - 1].pos, ptr, l) then Some(n - 1)
    else FindEntry(s, dict, ptr, l, n - 1)
  }

  /** A remembered entry of the inner loop, by its index: under the cap and with room for the literal after its run. */
  predicate SavedOk(s: seq<byte>, dict: seq<Entry>, ptr: nat, saved: Option<nat>)
  {
    saved.Some? ==> saved.value < |dict| && 1 <= dict[saved.value].len < MatchCap && ptr + dict[saved.value].len < |s|
  }

  /** The remembered entry's run matches the run at `ptr`. */
  predicate SavedMatches(s: seq<byte>, dict: seq<Entry>, ptr: nat, saved: Option<nat>)
  {
    saved.Some? && saved.value < |dict| ==> Matches(s, dict[saved.value].pos, ptr, dict[saved.value].len)
  }

  /** The inner `while` loop from length `l` on: the entry of the longest length reached step by step. */
  function Scan(s: seq<byte>, dict: seq<Entry>, ptr: nat, l: nat, saved: Option<nat>): (r: Option<nat>)
    requires l >= 1 && SavedOk(s, dict, ptr, saved)
    ensures SavedOk(s, dict, ptr, r)
    decreases |s| - l
  {
    if ptr + l < |s| && l < MatchCap then
      match FindEntry(s, dict, ptr, l, |dict|)
      case None => saved
      case Some(i) => Scan(s, dict, ptr, l + 1, Some(i))
    else saved
  }

  /** The entry the inner loop settles on matches at `ptr`. */
  lemma {:induction false} ScanMatches(s: seq<byte>, dict: seq<Entry>, ptr: nat, l: nat, saved: Option<nat>)
    requires l >= 1 && SavedOk(s, dict, ptr, saved) && SavedMatches(s, dict, ptr, saved)
    ensures SavedMatches(s, dict, ptr, Scan(s, dict, ptr, l, saved))
    decreases |s| - l
  {
    if ptr + l < |s| && l < MatchCap {
      var f := FindEntry(s, dict, ptr, l, |dict|);
      if f.Some? {
        ScanMatches(s, dict, ptr, l + 1, f);
      }
    }
  }

  /** What one round of the outer loop produces: the pair, the next position and the dictionary. */
  datatype Emitted = Emitted(pair: Pair, next: nat, dict: seq<Entry>)

  function Emit(s: seq<byte>, dict: seq<Entry>, ptr: nat): (r: Emitted)
    requires ptr < |s|
    ensures ptr < r.next <= |s|
  {
    match Scan(s, dict, ptr, 1, None)
    case None => Emitted(Pair(0, s[ptr]), ptr + 1, Add(dict, ptr, 1))
    case Some(i) =>
      var e := dict[i];
      Emitted(Pair(e.code, s[ptr + e.len]), ptr + e.len + 1, Add(dict, ptr, e.len + 1))
  }

  lemma EncodeFromStep(s: seq<byte>, dict: seq<Entry>, ptr: nat)
    requires ptr < |s|
    ensures EncodeFrom(s, dict, ptr) ==
            [Emit(s, dict, ptr).pair] + EncodeFrom(s, Emit(s, dict, ptr).dict, Emit(s, dict, ptr).next)
  {
  }

  /** The pairs the encoder emits from `ptr` on, starting with dictionary `dict`. */
  function EncodeFrom(s: seq<byte>, dict: seq<Entry>, ptr: nat): (r: seq<Pair>)
    decreases |s| - ptr
  {
    if ptr >= |s| then []
    else
      var em := Emit(s, dict, ptr);
      [em.pair] + EncodeFrom(s, em.dict, em.next)
  }

  // ---------------------------------------------------------------------
  // Archive layout and the decoder
  // ---------------------------------------------------------------------

  /** The three bytes written per pair: the two low little-endian bytes of the code, the literal. */
  function PairBytes(p: Pair): (r: seq<byte>)
    ensures |r| == 3
  {
    [p.code % 256, (p.code / 256) % 256, p.literal]
  }

  function Serialize(ps: seq<Pair>): (r: seq<byte>)
    ensures |r| == 3 * |ps|
  {
    if ps == [] then [] else PairBytes(ps[0]) + Serialize(ps[1..])
  }

  /**
   * One block of `decompress`: the code and the literal, read against the
   * dictionary and the output so far. A code above `dict.len()` indexes past
   * the dictionary and panics.
   */
  function DecodeBlock(code: nat, literal: byte, dict: seq<Entry>, out: seq<byte>): (r: Option<(seq<Entry>, seq<byte>)>)
    requires Within(dict, |out|)
    ensures r.Some? <==> code <= |dict|
    ensures r.Some? ==> |out| < |r.value.1| && Within(r.value.0, |r.value.1|)
  {
    if code == 0 then Some((Add(dict, |out|, 1), out + [literal]))
    else if code > |dict| then None
    else
      var e := dict[code - 1];
      Some((Add(dict, |out|, e.len + 1), out + out[e.pos..e.pos + e.len] + [literal]))
  }

  /** `decompress` from the remaining archive bytes `a`; a partial block at the end reads past the data and panics. */
  function DecodeFrom(a: seq<byte>, dict: seq<Entry>, out: seq<byte>): (r: Option<seq<byte>>)
    requires Within(dict, |out|)
    decreases |a|
  {
    if a == [] then Some(out)
    else if |a| < 3 then None
    else
      match DecodeBlock(a[0] as nat + 256 * a[1] as nat, a[2], dict, out)
      case None => None
      case Some(next) => DecodeFrom(a[3..], next.0, next.1)
  }

  function CompressSpec(data: seq<byte>): seq<byte>
  {
    Serialize(EncodeFrom(data, [], 0))
  }

  /** One block of `decompress` taken off the front of the remaining archive bytes. */
  lemma DecodeFromStep(a: seq<byte>, dict: seq<Entry>, out: seq<byte>)
    requires |a| >= 3 && Within(dict, |out|)
    ensures var b := DecodeBlock(a[0] as nat + 256 * a[1] as nat, a[2], dict, out);
            DecodeFrom(a, dict, out) == if b.None? then None else DecodeFrom(a[3..], b.value.0, b.value.1)
  {
  }

  function DecompressSpec(archive: seq<byte>): Option<seq<byte>>
  {
    DecodeFrom(archive, [], [])
  }

  // ---------------------------------------------------------------------
  // Lemmas
  // ---------------------------------------------------------------------

  /** Every code the encoder emits names an existing entry, so codes stay within 1..=4096 or are 0. */
  lemma {:induction false} EncodeCodes(s: seq<byte>, dict: seq<Entry>, ptr: nat)
    requires Good(dict, ptr)
    ensures forall p :: p in EncodeFrom(s, dict, ptr) ==> p.code <= DictSize
    decreases |s| - ptr
  {
    if ptr < |s| {
      var e := Emit(s, dict, ptr);
      AddGood(dict, ptr, ptr, e.next - ptr, e.next);
      EncodeCodes(s, e.dict, e.next);
      assert EncodeFrom(s, dict, ptr) == [e.pair] + EncodeFrom(s, e.dict, e.next);
    }
  }

  /** The run a dictionary entry names in the decoded prefix is the phrase at the encoder's `ptr`. */
  lemma PhraseCopy(s: seq<byte>, e: Entry, ptr: nat)
    requires e.pos + e.len <= ptr && Matches(s, e.pos, ptr, e.len)
    ensures s[..ptr][e.pos..e.pos + e.len] == s[ptr..ptr + e.len]
  {
  }

  /** A pair naming entry `i`, whose run matches at `ptr`, makes the decoder copy that run, append the literal and add the same entry as the encoder. */
  lemma DecodePhrase(s: seq<byte>, dict: seq<Entry>, ptr: nat, i: nat)
    requires Good(dict, ptr) && i < |dict| && ptr + dict[i].len < |s|
    requires Matches(s, dict[i].pos, ptr, dict[i].len)
    ensures DecodeBlock(dict[i].code, s[ptr + dict[i].len], dict, s[..ptr]) ==
            Some((Add(dict, ptr, dict[i].len + 1), s[..ptr + dict[i].len + 1]))
  {
    var e := dict[i];
    PhraseCopy(s, e, ptr);
    assert s[..ptr] + s[ptr..ptr + e.len] + [s[ptr + e.len]] == s[..ptr + e.len + 1];
  }

  /** One pair: the decoder, in the encoder's state, rebuilds the phrase, the literal and the same next dictionary. */
  lemma DecodeStep(s: seq<byte>, dict: seq<Entry>, ptr: nat)
    requires ptr < |s| && Good(dict, ptr)
    ensures Emit(s, dict, ptr).pair.code <= |dict|
    ensures DecodeBlock(Emit(s, dict, ptr).pair.code, Emit(s, dict, ptr).pair.literal, dict, s[..ptr]) ==
            Some((Emit(s, dict, ptr).dict, s[..Emit(s, dict, ptr).next]))
  {
    match Scan(s, dict, ptr, 1, None)
    case None =>
      assert s[..ptr] + [s[ptr]] == s[..ptr + 1];
    case Some(i) =>
      ScanMatches(s, dict, ptr, 1, None);
      DecodePhrase(s, dict, ptr, i);
  }

  /** The two bytes written for a code below 65536 read back as that code. */
  lemma PairBytesCode(p: Pair, rest: seq<byte>)
    requires p.code < 65536
    ensures var a := PairBytes(p) + rest;
            a[0] as nat + 256 * a[1] as nat == p.code && a[2] == p.literal && a[3..] == rest
  {
    var a := PairBytes(p) + rest;
    assert a[3..] == rest;
  }

  /** Decoding the pairs emitted from `ptr`, in the same state, yields the rest of the input. */
  lemma {:induction false} DecodeEncode(s: seq<byte>, dict: seq<Entry>, ptr: nat)
    requires ptr <= |s| && Good(dict, ptr)
    ensures DecodeFrom(Serialize(EncodeFrom(s, dict, ptr)), dict, s[..ptr]) == Some(s)
    decreases |s| - ptr
  {
    if ptr == |s| {
      assert s[..ptr] == s;
    } else {
      var em := Emit(s, dict, ptr);
      var rest := Serialize(EncodeFrom(s, em.dict, em.next));
      EncodeFromStep(s, dict, ptr);
      SerializeCons(em.pair, EncodeFrom(s, em.dict, em.next));
      var a := PairBytes(em.pair) + rest;
      DecodeStep(s, dict, ptr);
      PairBytesCode(em.pair, rest);
      AddGood(dict, ptr, ptr, em.next - ptr, em.next);
      assert DecodeFrom(a, dict, s[..ptr]) == DecodeFrom(rest, em.dict, s[..em.next]);
      DecodeEncode(s, em.dict, em.next);
    }
  }

  /** Round trip of lab8: `decompress(compress(d)) == d` for every input. */
  lemma RoundTrip(data: seq<byte>)
    ensures DecompressSpec(CompressSpec(data)) == Some(data)
  {
    assert data[..0] == [];
    DecodeEncode(data, [], 0);
  }

  /** Each pair advances at least one byte, so the archive is at most three bytes per input byte. */
  lemma {:induction false} EncodeLength(s: seq<byte>, dict: seq<Entry>, ptr: nat)
    requires ptr <= |s|
    ensures |EncodeFrom(s, dict, ptr)| <= |s| - ptr
    decreases |s| - ptr
  {
    if ptr < |s| {
      var em := Emit(s, dict, ptr);
      EncodeLength(s, em.dict, em.next);
    }
  }

  lemma CompressLength(data: seq<byte>)
    ensures |CompressSpec(data)| <= 3 * |data|
  {
    EncodeLength(data, [], 0);
  }

  /** A block naming a code the dictionary does not have yet is a decode failure. */
  lemma UnknownCode(lo: byte, hi: byte, literal: byte)
    requires lo != 0 || hi != 0
    ensures DecompressSpec([lo, hi, literal]) == None
  {
  }

  lemma SerializeCons(p: Pair, ps: seq<Pair>)
    ensures Serialize([p] + ps) == PairBytes(p) + Serialize(ps)
  {
    assert ([p] + ps)[1..] == ps;
  }

  lemma SerializeSnoc(ps: seq<Pair>, p: Pair)
    ensures Serialize(ps + [p]) == Serialize(ps) + PairBytes(p)
  {
    if ps != [] {
      assert (ps + [p])[1..] == ps[1..] + [p];
      SerializeSnoc(ps[1..], p);
    } else {
      assert [p][1..] == [];
    }
  }

  // ---------------------------------------------------------------------
  // The loops of `lz78_encode`, `compress` and `decompress`
  // ---------------------------------------------------------------------

  /** `if dict.len() < DICT_SIZE { dict.push((pos, len, count)); count += 1; }`, as both coders write it. */
  method Push(dict: seq<Entry>, count: nat, pos: nat, len: nat) returns (dict': seq<Entry>, count': nat)
    requires count == |dict| + 1
    ensures dict' == Add(dict, pos, len) && count' == |dict'| + 1
  {
    dict', count' := dict, count;
    if |dict| < DictSize {
      dict' := dict + [Entry(pos, len, count)];
      count' := count + 1;
    }
  }

  /** The backward dictionary search for length `l`, skipping entries of another length. */
  method SearchDict(s: seq<byte>, dict: seq<Entry>, ptr: nat, l: nat) returns (r: Option<nat>)
    requires Within(dict, ptr) && ptr + l <= |s|
    ensures r == FindEntry(s, dict, ptr, l, |dict|)
  {
    var i: nat := |dict|;
    while i > 0
      invariant i <= |dict|
      invariant FindEntry(s, dict, ptr, l, i) == FindEntry(s, dict, ptr, l, |dict|)
    {
      i := i - 1;
      var e := dict[i];
      if l != e.len {
        continue;
      }
      var m := LzMatch(s, e.pos, ptr, l);
      if m {
        return Some(i);
      }
    }
    return None;
  }

  /** The inner `while` loop at `ptr`: the entry of the last length that matched, if any. */
  method LongestEntry(s: seq<byte>, dict: seq<Entry>, ptr: nat) returns (saved: Option<nat>)
    requires Within(dict, ptr) && ptr < |s|
    ensures saved == Scan(s, dict, ptr, 1, None)
  {
    saved := None;
    var l := 1;
    while ptr + l < |s| && l < MatchCap
      invariant l >= 1 && SavedOk(s, dict, ptr, saved)
      invariant Scan(s, dict, ptr, l, saved) == Scan(s, dict, ptr, 1, None)
      decreases |s| - l
    {
      var found := SearchDict(s, dict, ptr, l);
      if found.None? {
        break;
      }
      saved := found;
      l := l + 1;
    }
  }

  /** One round of the outer loop of `lz78_encode`: the pair for the match at `ptr` and the length of the new entry. */
  method EmitAt(s: seq<byte>, dict: seq<Entry>, ptr: nat) returns (pair: Pair, len: nat)
    requires Within(dict, ptr) && ptr < |s|
    ensures Emitted(pair, ptr + len, Add(dict, ptr, len)) == Emit(s, dict, ptr)
  {
    var saved := LongestEntry(s, dict, ptr);
    if saved.Some? {
      var (_, l, val) := (dict[saved.value].pos, dict[saved.value].len, dict[saved.value].code);
      pair, len := Pair(val, s[ptr + l]), l + 1;
    } else {
      pair, len := Pair(0, s[ptr]), 1;
    }
  }

  lemma EncodeStep(s: seq<byte>, dict: seq<Entry>, ptr: nat, pair: Pair, len: nat)
    requires ptr < |s| && Emitted(pair, ptr + len, Add(dict, ptr, len)) == Emit(s, dict, ptr)
    ensures EncodeFrom(s, dict, ptr) == [pair] + EncodeFrom(s, Add(dict, ptr, len), ptr + len)
  {
    EncodeFromStep(s, dict, ptr);
    var em := Emit(s, dict, ptr);
    assert em.pair == pair && em.next == ptr + len && em.dict == Add(dict, ptr, len);
  }

  /** `lz78_encode` */
  method Lz78Encode(data: seq<byte>) returns (encoded: seq<Pair>)
    ensures encoded == EncodeFrom(data, [], 0)
    ensures forall p :: p in encoded ==> p.code <= DictSize
  {
    encoded := [];
    var dict: seq<Entry> := [];
    var count: nat := 1;
    var ptr: nat := 0;
    ghost var target := EncodeFrom(data, dict, ptr);
    while ptr < |data|
      invariant ptr <= |data| && Good(dict, ptr) && count == |dict| + 1
      invariant encoded + EncodeFrom(data, dict, ptr) == target
      decreases |data| - ptr
    {
      var pair, len := EmitAt(data, dict, ptr);
      EncodeStep(data, dict, ptr, pair, len);
      AddGood(dict, ptr, ptr, len, ptr + len);
      ghost var rest := EncodeFrom(data, Add(dict, ptr, len), ptr + len);
      Assoc(encoded, [pair], rest);
      encoded := encoded + [pair];
      dict, count := Push(dict, count, ptr, len);
      ptr := ptr + len;
    }
    EncodeCodes(data, [], 0);
  }

  /** `compress`: three bytes per pair. */
  method Compress(data: seq<byte>) returns (archive: seq<byte>)
    ensures archive == CompressSpec(data)
    ensures DecompressSpec(archive) == Some(data)
  {
    var encoded := Lz78Encode(data);
    archive := [];
    for i := 0 to |encoded|
      invariant archive == Serialize(encoded[..i])
    {
      var p := encoded[i];
      SerializeSnoc(encoded[..i], p);
      assert encoded[..i + 1] == encoded[..i] + [p];
      archive := archive + [p.code % 256, (p.code / 256) % 256, p.literal];
    }
    assert encoded[..|encoded|] == encoded;
    RoundTrip(data);
  }

  /** The body of the `decompress` loop for one block, once its code and literal are read. */
  method Block(value: nat, byte: byte, dict: seq<Entry>, count: nat, ptr: nat, decoded: seq<byte>)
      returns (ok: bool, dict': seq<Entry>, count': nat, ptr': nat, decoded': seq<byte>)
    requires Within(dict, |decoded|) && count == |dict| + 1 && ptr == |decoded|
    ensures ok <==> value <= |dict|
    ensures ok ==> DecodeBlock(value, byte, dict, decoded) == Some((dict', decoded')) &&
                   count' == |dict'| + 1 && ptr' == |decoded'|
  {
    dict', count', ptr', decoded' := dict, count, ptr, decoded;
    if value == 0 {
      dict', count' := Push(dict, count, ptr, 1);
      decoded' := decoded + [byte];
      ptr' := ptr + 1;
    } else {
      if value > |dict| {
        // `dict[value as usize - 1]` is out of bounds
        return false, dict', count', ptr', decoded';
      }
      var e := dict[value - 1];
      decoded' := CopyRun(decoded, e.pos, e.len);
      decoded' := decoded' + [byte];
      dict', count' := Push(dict, count, ptr, e.len + 1);
      ptr' := ptr + e.len + 1;
    }
    ok := true;
  }

  /** The `decoded.push(decoded[pos1 + i])` loop: the run is read from the part decoded before it. */
  method CopyRun(decoded: seq<byte>, pos: nat, len: nat) returns (r: seq<byte>)
    requires pos + len <= |decoded|
    ensures r == decoded + decoded[pos..pos + len]
  {
    r := decoded;
    for i := 0 to len
      invariant r == decoded + decoded[pos..pos + i]
    {
      assert decoded[pos..pos + i + 1] == decoded[pos..pos + i] + [decoded[pos + i]];
      r := r + [r[pos + i]];
    }
  }

  /** `decompress`: rebuilds the dictionary over its own output while reading three bytes per pair. */
  method Decompress(data: seq<byte>) returns (result: Option<seq<byte>>)
    ensures result == DecompressSpec(data)
  {
    var decoded: seq<byte> := [];
    var dict: seq<Entry> := [];
    var count: nat := 1;
    var ptr: nat := 0;
    var caret: nat := 0;
    while caret < |data|
      invariant caret <= |data| && ptr == |decoded| && count == |dict| + 1
      invariant Within(dict, |decoded|)
      invariant DecodeFrom(data[caret..], dict, decoded) == DecompressSpec(data)
      decreases |data| - caret
    {
      ghost var a := data[caret..];
      if caret + 2 >= |data| {
        // `data[caret + 1]` or `data[caret + 2]` is out of bounds
        return None;
      }
      var value: nat := data[caret] as nat + 256 * data[caret + 1] as nat;
      var byte := data[caret + 2];
      caret := caret + 3;
      assert a[3..] == data[caret..];
      assert a[0] as nat + 256 * a[1] as nat == value && a[2] == byte;
      DecodeFromStep(a, dict, decoded);
      ghost var before := DecodeBlock(value, byte, dict, decoded);
      var ok;
      ok, dict, count, ptr, decoded := Block(value, byte, dict, count, ptr, decoded);
      if !ok {
        return None;
      }
      assert before == Some((dict, decoded));
    }
    assert data[caret..] == [];
    result := Some(decoded);
  }
}
