/** The translation catalogue compiler and its reader (tools/luci-i18n/lmo.go).  The hash
    functions are parameters: only the compiler's own collision check is relied on. */
module Lmo {
  import opened Options
  import opened Bytes

  const TWO32 := 0x1_0000_0000
  const ENTRY_SIZE := 16

  type Word = x: int | 0 <= x < TWO32

  datatype Message = Message(id: Bytes, str: Bytes)

  datatype Entry = Entry(keyID: Word, valID: Word, offset: Word, length: Word)

  datatype Hashes = Hashes(key: Bytes -> Word, sfh: Bytes -> Word)

  datatype CompileError = NoMessages | Collision(first: Bytes, second: Bytes)

  /** Conversion of a length to uint32. */
  function Trunc(n: nat): Word {
    n % TWO32
  }

  function WriteEntry(e: Entry): (b: Bytes)
    ensures |b| == ENTRY_SIZE
  {
    Be32(e.keyID) + (Be32(e.valID) + (Be32(e.offset) + Be32(e.length)))
  }

  function WriteEntries(es: seq<Entry>): (b: Bytes)
    ensures |b| == ENTRY_SIZE * |es|
    decreases |es|
  {
    if es == [] then [] else WriteEntry(es[0]) + WriteEntries(es[1..])
  }

  /** The file: texts, index, and where the index starts. */
  function File(data: Bytes, es: seq<Entry>): Bytes {
    data + (WriteEntries(es) + Be32(Trunc(|data|)))
  }

  // ----- Where the texts lie -----

  /** Text `j` lies at `offs[j]`; entry `j` says so. */
  ghost predicate Placed(h: Hashes, ms: seq<Message>, es: seq<Entry>, offs: seq<nat>, data: Bytes, j: nat)
    requires j < |ms| == |es| == |offs|
  {
    && es[j] == Entry(h.key(ms[j].id), h.sfh(ms[j].str), Trunc(offs[j]), Trunc(|ms[j].str|))
    && offs[j] + |ms[j].str| <= |data|
    && data[offs[j]..offs[j] + |ms[j].str|] == ms[j].str
  }

  /** All texts lie in order, aligned, without overlap, inside the data. */
  ghost predicate LaidOut(h: Hashes, ms: seq<Message>, es: seq<Entry>, offs: seq<nat>, data: Bytes) {
    && |ms| == |es| == |offs|
    && (forall j :: 0 <= j < |ms| ==> Placed(h, ms, es, offs, data, j))
    && (forall j :: 0 <= j < |ms| ==> offs[j] % 4 == 0)
    && (forall i, j :: 0 <= i < j < |ms| ==> offs[i] + |ms[i].str| <= offs[j])
    && |data| % 4 == 0
  }

  /** Messages with one key have one id. */
  ghost predicate NoCollision(h: Hashes, ms: seq<Message>) {
    forall i, j :: 0 <= i < |ms| && 0 <= j < |ms| && h.key(ms[i].id) == h.key(ms[j].id) ==> ms[i].id == ms[j].id
  }

  lemma PlacedExtend(h: Hashes, ms: seq<Message>, es: seq<Entry>, offs: seq<nat>, data: Bytes, m: Message, pad: Bytes)
    requires LaidOut(h, ms, es, offs, data)
    requires (|data| + |m.str| + |pad|) % 4 == 0
    ensures var e := Entry(h.key(m.id), h.sfh(m.str), Trunc(|data|), Trunc(|m.str|));
            LaidOut(h, ms + [m], es + [e], offs + [|data|], data + m.str + pad)
  {
    var e := Entry(h.key(m.id), h.sfh(m.str), Trunc(|data|), Trunc(|m.str|));
    var ms', es', offs', data' := ms + [m], es + [e], offs + [|data|], data + m.str + pad;
    forall j | 0 <= j < |ms'| ensures Placed(h, ms', es', offs', data', j) {
      if j < |ms| {
        assert Placed(h, ms, es, offs, data, j);
        SliceOfLonger(data, m.str + pad, offs[j], offs[j] + |ms[j].str|);
        assert data' == data + (m.str + pad);
      } else {
        assert data'[|data|..|data| + |m.str|] == m.str;
      }
    }
    forall i, j | 0 <= i < j < |ms'| ensures offs'[i] + |ms'[i].str| <= offs'[j] {
      assert Placed(h, ms, es, offs, data, i);
    }
  }

  /** Where text `j` and its padding end. */
  function EndOf(offs: seq<nat>, data: Bytes, j: nat): nat
    requires j < |offs|
  {
    if j + 1 < |offs| then offs[j + 1] else |data|
  }

  /** Text `j` is followed by fewer than four zeroes and then by the next text, or the end. */
  ghost predicate Padded(ms: seq<Message>, offs: seq<nat>, data: Bytes, j: nat)
    requires j < |ms| == |offs|
  {
    var from, to := offs[j] + |ms[j].str|, EndOf(offs, data, j);
    from <= to < from + 4 && to <= |data| && forall k :: from <= k < to ==> data[k] == 0
  }

  /** No room is wasted: texts and their padding fill the data. */
  ghost predicate Tight(ms: seq<Message>, offs: seq<nat>, data: Bytes) {
    && |ms| == |offs| && (ms == [] ==> data == []) && (ms != [] ==> offs[0] == 0)
    && forall j :: 0 <= j < |ms| ==> Padded(ms, offs, data, j)
  }

  lemma TightExtend(ms: seq<Message>, offs: seq<nat>, data: Bytes, m: Message, pad: Bytes)
    requires Tight(ms, offs, data) && |pad| < 4 && forall i :: 0 <= i < |pad| ==> pad[i] == 0
    ensures Tight(ms + [m], offs + [|data|], data + m.str + pad)
  {
    var ms', offs', data' := ms + [m], offs + [|data|], data + m.str + pad;
    forall j | 0 <= j < |ms'| ensures Padded(ms', offs', data', j) {
      if j < |ms| {
        assert Padded(ms, offs, data, j);
        assert EndOf(offs', data', j) == EndOf(offs, data, j);
        assert forall k :: 0 <= k < |data| ==> data'[k] == data[k];
      } else {
        assert forall k :: |data| + |m.str| <= k < |data'| ==> data'[k] == pad[k - |data| - |m.str|];
      }
    }
  }

  lemma SliceOfLonger(b: Bytes, more: Bytes, i: nat, j: nat)
    requires i <= j <= |b|
    ensures (b + more)[i..j] == b[i..j]
  {
  }

  // ----- Sorting the index -----

  predicate Sorted(es: seq<Entry>) {
    forall i, j :: 0 <= i < j < |es| ==> es[i].keyID <= es[j].keyID
  }

  /** Sorts by key; equal keys may end up in any order, here in the order given. */
  method SortByKey(es: seq<Entry>) returns (r: seq<Entry>)
    ensures Sorted(r) && multiset(r) == multiset(es)
  {
    r := [];
    for i := 0 to |es|
      invariant Sorted(r) && multiset(r) == multiset(es[..i])
    {
      assert es[..i + 1] == es[..i] + [es[i]];
      r := Insert(r, es[i]);
    }
    assert es[..|es|] == es;
  }

  method Insert(es: seq<Entry>, e: Entry) returns (r: seq<Entry>)
    requires Sorted(es)
    ensures Sorted(r) && multiset(r) == multiset(es) + multiset{e}
  {
    var k := |es|;
    while k > 0 && es[k - 1].keyID > e.keyID
      invariant 0 <= k <= |es|
      invariant forall j :: k <= j < |es| ==> es[j].keyID > e.keyID
    {
      k := k - 1;
    }
    InsertAt(es, k, e);
    r := es[..k] + [e] + es[k..];
  }

  lemma InsertAt(es: seq<Entry>, k: nat, e: Entry)
    requires Sorted(es) && k <= |es|
    requires k > 0 ==> es[k - 1].keyID <= e.keyID
    requires forall j :: k <= j < |es| ==> es[j].keyID > e.keyID
    ensures var r := es[..k] + [e] + es[k..]; Sorted(r) && multiset(r) == multiset(es) + multiset{e}
  {
    var front, back := es[..k], es[k..];
    SortedSlices(es, k);
    assert es == front + back;
    MultisetInsert(front, back, e);
    assert Sorted([e]);
    hide Sorted;
    SortedConcat(front, [e]);
    forall i, j | 0 <= i < |front + [e]| && 0 <= j < |back| ensures (front + [e])[i].keyID <= back[j].keyID {
      assert (front + [e])[i] == if i < k then front[i] else e;
    }
    SortedConcat(front + [e], back);
  }

  lemma SortedSlices(es: seq<Entry>, k: nat)
    requires Sorted(es) && k <= |es|
    ensures Sorted(es[..k]) && Sorted(es[k..])
    ensures forall i :: 0 <= i < k ==> es[..k][i] == es[i]
    ensures k > 0 ==> forall i :: 0 <= i < k ==> es[..k][i].keyID <= es[k - 1].keyID
    ensures forall j :: 0 <= j < |es| - k ==> es[k..][j] == es[k + j]
  {
  }

  lemma MultisetInsert<T>(a: seq<T>, b: seq<T>, e: T)
    ensures multiset(a + [e] + b) == multiset(a + b) + multiset{e}
  {
  }

  lemma SortedConcat(a: seq<Entry>, b: seq<Entry>)
    requires Sorted(a) && Sorted(b)
    requires forall i, j :: 0 <= i < |a| && 0 <= j < |b| ==> a[i].keyID <= b[j].keyID
    ensures Sorted(a + b)
  {
    forall i, j | 0 <= i < j < |a + b| ensures (a + b)[i].keyID <= (a + b)[j].keyID {
      if i < |a| <= j {
        assert (a + b)[i] == a[i] && (a + b)[j] == b[j - |a|];
      }
    }
  }

  // ----- The compiler -----

  method Compile(h: Hashes, messages: seq<Message>)
    returns (r: Result<Bytes, CompileError>, ghost es: seq<Entry>, ghost offs: seq<nat>, ghost data: Bytes,
             ghost index: seq<Entry>)
    ensures r.Ok? <==> messages != [] && NoCollision(h, messages)
    ensures r.Ok? ==> LaidOut(h, messages, es, offs, data) && Tight(messages, offs, data)
    ensures r.Ok? ==> Sorted(index) && multiset(index) == multiset(es) && r.value == File(data, index)
  {
    es, offs, data, index := [], [], [], [];
    if messages == [] {
      return Err(NoMessages), es, offs, data, index;
    }
    var built, places := Place(h, messages);
    if built.Err? {
      return Err(built.error), es, offs, data, index;
    }
    var (bytes, entries) := built.value;
    es, offs, data := entries, places, bytes;
    var sorted := SortByKey(entries);
    index := sorted;
    var indexOffset := Trunc(|bytes|);
    var body := WriteIndex(sorted);
    r := Ok(bytes + (body + Be32(indexOffset)));
  }

  /** The loop over the messages: texts, padding and entries. */
  method Place(h: Hashes, messages: seq<Message>)
    returns (r: Result<(Bytes, seq<Entry>), CompileError>, ghost offs: seq<nat>)
    ensures r.Ok? <==> NoCollision(h, messages)
    ensures r.Ok? ==> LaidOut(h, messages, r.value.1, offs, r.value.0) && Tight(messages, offs, r.value.0)
  {
    var bytes: Bytes := [];
    var entries: seq<Entry> := [];
    var seen: map<Word, Bytes> := map[];
    offs := [];
    assert messages[..0] == [];
    assert LaidOut(h, [], [], [], []) && Tight([], [], []);
    hide LaidOut, NoCollision, Tight;
    SeenStart(h);
    for i := 0 to |messages|
      invariant LaidOut(h, messages[..i], entries, offs, bytes) && Tight(messages[..i], offs, bytes)
      invariant Seen(h, messages[..i], seen)
    {
      var msg := messages[i];
      var keyID := h.key(msg.id);
      TakeSnoc(messages, i);
      if keyID in seen && seen[keyID] != msg.id {
        SeenClash(h, messages, i, seen);
        return Err(Collision(seen[keyID], msg.id)), offs;
      }
      SeenStep(h, messages[..i], seen, msg);
      seen := seen[keyID := msg.id];
      ghost var es := entries;
      entries := entries + [Entry(keyID, h.sfh(msg.str), Trunc(|bytes|), Trunc(|msg.str|))];
      ghost var before := bytes;
      ghost var pad;
      bytes, pad := PadTo4(bytes + msg.str);
      PlacedExtend(h, messages[..i], es, offs, before, msg, pad);
      TightExtend(messages[..i], offs, before, msg, pad);
      offs := offs + [|before|];
    }
    assert messages[..|messages|] == messages;
    SeenNoCollision(h, messages, seen);
    r := Ok((bytes, entries));
  }

  lemma TakeSnoc<T>(s: seq<T>, i: nat)
    requires i < |s|
    ensures s[..i + 1] == s[..i] + [s[i]]
  {
  }

  function Padding(n: nat): nat {
    (4 - n % 4) % 4
  }

  lemma PaddingBound(n: nat)
    ensures 0 <= Padding(n) < 4 && (n % 4 == 0 <==> Padding(n) == 0)
  {
  }

  lemma PaddingStep(n: nat)
    requires n % 4 != 0
    ensures Padding(n + 1) == Padding(n) - 1
  {
  }

  /** Zeroes up to the next multiple of four. */
  method PadTo4(b: Bytes) returns (r: Bytes, ghost pad: Bytes)
    ensures r == b + pad && |r| % 4 == 0
    ensures |pad| < 4 && forall i :: 0 <= i < |pad| ==> pad[i] == 0
  {
    hide Padding;
    r, pad := b, [];
    PaddingBound(|b|);
    while |r| % 4 != 0
      invariant r == b + pad && |pad| == Padding(|b|) - Padding(|r|)
      invariant forall i :: 0 <= i < |pad| ==> pad[i] == 0
      decreases Padding(|r|)
    {
      PaddingStep(|r|);
      r, pad := r + [0], pad + [0];
    }
  }

  method WriteIndex(sorted: seq<Entry>) returns (body: Bytes)
    ensures body == WriteEntries(sorted)
  {
    body := [];
    for i := 0 to |sorted|
      invariant body == WriteEntries(sorted[..i])
    {
      TakeSnoc(sorted, i);
      WriteEntriesSnoc(sorted[..i], sorted[i]);
      body := body + WriteEntry(sorted[i]);
    }
    assert sorted[..|sorted|] == sorted;
  }

  /** The keys seen, each with the one id that has it. */
  ghost predicate Seen(h: Hashes, ms: seq<Message>, seen: map<Word, Bytes>) {
    && (forall j :: 0 <= j < |ms| ==> h.key(ms[j].id) in seen && seen[h.key(ms[j].id)] == ms[j].id)
    && (forall k :: k in seen ==> exists j :: 0 <= j < |ms| && h.key(ms[j].id) == k && ms[j].id == seen[k])
  }

  lemma SeenStart(h: Hashes)
    ensures Seen(h, [], map[])
  {
  }

  lemma SeenStep(h: Hashes, ms: seq<Message>, seen: map<Word, Bytes>, m: Message)
    requires Seen(h, ms, seen) && (h.key(m.id) in seen ==> seen[h.key(m.id)] == m.id)
    ensures Seen(h, ms + [m], seen[h.key(m.id) := m.id])
  {
    var ms', seen' := ms + [m], seen[h.key(m.id) := m.id];
    forall k | k in seen' ensures exists j :: 0 <= j < |ms'| && h.key(ms'[j].id) == k && ms'[j].id == seen'[k] {
      if k == h.key(m.id) {
        assert ms'[|ms|] == m;
      } else {
        var j :| 0 <= j < |ms| && h.key(ms[j].id) == k && ms[j].id == seen[k];
        assert ms'[j] == ms[j];
      }
    }
  }

  lemma SeenClash(h: Hashes, ms: seq<Message>, i: nat, seen: map<Word, Bytes>)
    requires i < |ms| && Seen(h, ms[..i], seen)
    requires h.key(ms[i].id) in seen && seen[h.key(ms[i].id)] != ms[i].id
    ensures !NoCollision(h, ms)
  {
    var j :| 0 <= j < i && h.key(ms[..i][j].id) == h.key(ms[i].id) && ms[..i][j].id == seen[h.key(ms[i].id)];
    assert ms[..i][j] == ms[j];
  }

  lemma SeenNoCollision(h: Hashes, ms: seq<Message>, seen: map<Word, Bytes>)
    requires Seen(h, ms, seen)
    ensures NoCollision(h, ms)
  {
  }

  lemma {:induction false} WriteEntriesSnoc(es: seq<Entry>, e: Entry)
    ensures WriteEntries(es + [e]) == WriteEntries(es) + WriteEntry(e)
    decreases |es|
  {
    if es == [] {
      assert [e][1..] == [];
    } else {
      WriteEntriesSnoc(es[1..], e);
      hide WriteEntry;
      assert (es + [e])[1..] == es[1..] + [e];
      var a, b, c := WriteEntry(es[0]), WriteEntries(es[1..]), WriteEntry(e);
      assert (a + b) + c == a + (b + c);
    }
  }

  // ----- The reader -----

  /** The index of a file, or why there is none. */
  function IndexOf(raw: Bytes): Option<Bytes> {
    if |raw| < 4 then None
    else
      var at := U32At(raw, |raw| - 4);
      if at > |raw| - 4 then None
      else if (|raw| - 4 - at) % ENTRY_SIZE != 0 then None
      else Some(raw[at..|raw| - 4])
  }

  lemma IndexParts(raw: Bytes, at: nat)
    requires |raw| >= 4 && at <= |raw| - 4
    ensures raw == raw[..at] + (raw[at..|raw| - 4] + raw[|raw| - 4..])
  {
  }

  lemma CatalogueParts(raw: Bytes)
    requires IndexOf(raw).Some?
    ensures var at := U32At(raw, |raw| - 4);
            at <= |raw| - 4 && raw == raw[..at] + (IndexOf(raw).value + Be32(at))
            && |IndexOf(raw).value| % ENTRY_SIZE == 0
  {
    var at := U32At(raw, |raw| - 4);
    Be32OfU32(raw[|raw| - 4..|raw|]);
    assert raw[|raw| - 4..|raw|] == raw[|raw| - 4..];
    IndexParts(raw, at);
  }

  lemma PartsCatalogue(data: Bytes, index: Bytes)
    requires |data| < TWO32 && |index| % ENTRY_SIZE == 0
    ensures IndexOf(data + (index + Be32(|data|))) == Some(index)
  {
    hide Be32, U32At;
    FileParts(data, index, Be32(|data|));
    U32AtShift(data + index, Be32(|data|) + [], 0);
    U32AtHere(|data|, []);
  }

  /** EXACTLY WHICH FILES ARE CATALOGUES: data, an index of whole entries, and the length of
      the data in four bytes. */
  lemma IndexIff(raw: Bytes, index: Bytes)
    ensures IndexOf(raw) == Some(index) <==>
              exists data: Bytes :: |data| < TWO32 && |index| % ENTRY_SIZE == 0 && raw == data + (index + Be32(|data|))
  {
    hide IndexOf, Be32, U32At;
    if IndexOf(raw) == Some(index) {
      CatalogueParts(raw);
      var data := raw[..U32At(raw, |raw| - 4)];
      assert raw == data + (index + Be32(|data|));
    }
    if data: Bytes :| |data| < TWO32 && |index| % ENTRY_SIZE == 0 && raw == data + (index + Be32(|data|)) {
      PartsCatalogue(data, index);
    }
  }

  function U32At(b: Bytes, i: nat): Word
    requires i + 4 <= |b|
  {
    U32(b[i..i + 4])
  }

  datatype Found = Hit(text: Bytes) | Miss | OutOfRange

  /** The first entry with the wanted key, from entry `i` on. */
  function LookupFrom(raw: Bytes, index: Bytes, want: Word, i: nat): Found
    decreases |index| / ENTRY_SIZE - i
  {
    if i >= |index| / ENTRY_SIZE then Miss
    else
      var base := i * ENTRY_SIZE;
      if U32At(index, base) != want then LookupFrom(raw, index, want, i + 1)
      else
        var offset, length := U32At(index, base + 8), U32At(index, base + 12);
        var end := (offset + length) % TWO32;
        if offset <= end <= |raw| then Hit(raw[offset..end]) else OutOfRange
  }

  method LookupOne(h: Hashes, raw: Bytes, index: Bytes, msgid: Bytes) returns (r: Found)
    ensures r == LookupFrom(raw, index, h.key(msgid), 0)
  {
    var want := h.key(msgid);
    for i := 0 to |index| / ENTRY_SIZE
      invariant LookupFrom(raw, index, want, 0) == LookupFrom(raw, index, want, i)
    {
      var base := i * ENTRY_SIZE;
      if U32At(index, base) != want {
        continue;
      }
      var offset, length := U32At(index, base + 8), U32At(index, base + 12);
      var end := (offset + length) % TWO32;
      return if offset <= end <= |raw| then Hit(raw[offset..end]) else OutOfRange;
    }
    r := Miss;
  }

  // ----- Reading back -----

  lemma U32AtHere(n: Word, rest: Bytes)
    ensures U32At(Be32(n) + rest, 0) == n
  {
    assert (Be32(n) + rest)[0..4] == Be32(n) + [];
    U32OfBe32(n, []);
  }

  lemma U32AtShift(head: Bytes, rest: Bytes, i: nat)
    requires i + 4 <= |rest|
    ensures U32At(head + rest, |head| + i) == U32At(rest, i)
  {
    var at := |head| + i;
    assert (head + rest)[at..at + 4] == rest[i..i + 4];
  }

  lemma ReadEntry(e: Entry, rest: Bytes)
    ensures U32At(WriteEntry(e) + rest, 0) == e.keyID
    ensures U32At(WriteEntry(e) + rest, 8) == e.offset
    ensures U32At(WriteEntry(e) + rest, 12) == e.length
  {
    hide U32At;
    var k, v, o, l := Be32(e.keyID), Be32(e.valID), Be32(e.offset), Be32(e.length) + rest;
    EntryBytes(e, rest);
    U32AtHere(e.keyID, v + (o + l));
    U32AtShift(k, v + (o + l), 4);
    U32AtShift(v, o + l, 0);
    U32AtHere(e.offset, l);
    U32AtShift(k, v + (o + l), 8);
    U32AtShift(v, o + l, 4);
    U32AtShift(o, l, 0);
    U32AtHere(e.length, rest);
  }

  lemma EntryBytes(e: Entry, rest: Bytes)
    ensures WriteEntry(e) + rest
         == Be32(e.keyID) + (Be32(e.valID) + (Be32(e.offset) + (Be32(e.length) + rest)))
  {
    hide Be32;
    Associate(Be32(e.keyID), Be32(e.valID), Be32(e.offset), Be32(e.length), rest);
  }

  lemma Associate(a: Bytes, b: Bytes, c: Bytes, d: Bytes, r: Bytes)
    ensures (a + (b + (c + d))) + r == a + (b + (c + (d + r)))
  {
  }

  lemma {:induction false} ReadEntries(es: seq<Entry>, i: nat)
    requires i < |es|
    ensures var b, base := WriteEntries(es), i * ENTRY_SIZE;
            U32At(b, base) == es[i].keyID && U32At(b, base + 8) == es[i].offset && U32At(b, base + 12) == es[i].length
    decreases |es|
  {
    var rest := WriteEntries(es[1..]);
    if i == 0 {
      ReadEntry(es[0], rest);
    } else {
      ReadEntries(es[1..], i - 1);
      hide U32At, WriteEntry;
      var base := (i - 1) * ENTRY_SIZE;
      U32AtShift(WriteEntry(es[0]), rest, base);
      U32AtShift(WriteEntry(es[0]), rest, base + 8);
      U32AtShift(WriteEntry(es[0]), rest, base + 12);
    }
  }

  /** The reader finds the index where the compiler put it. */
  lemma IndexOfFile(data: Bytes, es: seq<Entry>)
    requires |data| < TWO32
    ensures IndexOf(File(data, es)) == Some(WriteEntries(es))
  {
    hide IndexOf, Be32, WriteEntries;
    PartsCatalogue(data, WriteEntries(es));
  }

  lemma FileParts(data: Bytes, index: Bytes, tail: Bytes)
    requires |tail| == 4
    ensures var raw := data + (index + tail);
            raw == (data + index) + (tail + []) && raw[|data|..|raw| - 4] == index
  {
  }

  /** Scanning the index from entry `i` on stops at the first entry with the key. */
  lemma {:induction false} ScanFinds(raw: Bytes, es: seq<Entry>, want: Word, i: nat)
    requires i <= |es|
    ensures var r := LookupFrom(raw, WriteEntries(es), want, i);
            (r == Miss && forall j :: i <= j < |es| ==> es[j].keyID != want)
            || exists j :: i <= j < |es| && es[j].keyID == want && r == TextAt(raw, es[j])
    decreases |es| - i
  {
    if i < |es| {
      ReadEntries(es, i);
      if es[i].keyID != want {
        ScanFinds(raw, es, want, i + 1);
      }
    }
  }

  function TextAt(raw: Bytes, e: Entry): Found {
    var end := (e.offset + e.length) % TWO32;
    if e.offset <= end <= |raw| then Hit(raw[e.offset..end]) else OutOfRange
  }

  /** In a file under 4 GiB every entry leads to its text. */
  lemma PlacedText(h: Hashes, ms: seq<Message>, es: seq<Entry>, offs: seq<nat>, data: Bytes, rest: Bytes, j: nat)
    requires LaidOut(h, ms, es, offs, data) && j < |ms| && |data| < TWO32
    ensures TextAt(data + rest, es[j]) == Hit(ms[j].str)
  {
    assert Placed(h, ms, es, offs, data, j);
    SliceOfLonger(data, rest, offs[j], offs[j] + |ms[j].str|);
  }

  /** WHAT A LOOKUP ANSWERS, for any text asked for and any order the sort may leave equal
      keys in: a miss exactly when no message has its key, otherwise the text of a message
      with its key. */
  lemma LookupAnswers(h: Hashes, ms: seq<Message>, es: seq<Entry>, offs: seq<nat>, data: Bytes,
                      index: seq<Entry>, asked: Bytes)
    requires LaidOut(h, ms, es, offs, data) && multiset(index) == multiset(es)
    requires |File(data, index)| < TWO32
    ensures IndexOf(File(data, index)) == Some(WriteEntries(index))
    ensures var r := LookupFrom(File(data, index), WriteEntries(index), h.key(asked), 0);
            (r == Miss && forall j :: 0 <= j < |ms| ==> h.key(ms[j].id) != h.key(asked))
            || exists j :: 0 <= j < |ms| && h.key(ms[j].id) == h.key(asked) && r == Hit(ms[j].str)
  {
    var raw, want := File(data, index), h.key(asked);
    IndexOfFile(data, index);
    ScanFinds(raw, index, want, 0);
    var r := LookupFrom(raw, WriteEntries(index), want, 0);
    if r == Miss && forall j :: 0 <= j < |index| ==> index[j].keyID != want {
      forall j | 0 <= j < |ms| ensures h.key(ms[j].id) != want {
        assert Placed(h, ms, es, offs, data, j);
        assert es[j] in multiset(es);
        assert es[j] in index;
      }
    } else {
      var k :| 0 <= k < |index| && index[k].keyID == want && r == TextAt(raw, index[k]);
      assert index[k] in multiset(index);
      assert index[k] in es;
      var j :| 0 <= j < |es| && es[j] == index[k];
      assert Placed(h, ms, es, offs, data, j);
      PlacedText(h, ms, es, offs, data, WriteEntries(index) + Be32(Trunc(|data|)), j);
    }
  }

  /** EVERY MESSAGE IS FOUND: with pairwise distinct ids, looking one up gives its own text. */
  lemma EveryMessageFound(h: Hashes, ms: seq<Message>, es: seq<Entry>, offs: seq<nat>, data: Bytes,
                          index: seq<Entry>, j: nat)
    requires LaidOut(h, ms, es, offs, data) && multiset(index) == multiset(es)
    requires |File(data, index)| < TWO32 && NoCollision(h, ms) && j < |ms|
    requires forall i, k :: 0 <= i < k < |ms| ==> ms[i].id != ms[k].id
    ensures LookupFrom(File(data, index), WriteEntries(index), h.key(ms[j].id), 0) == Hit(ms[j].str)
  {
    LookupAnswers(h, ms, es, offs, data, index, ms[j].id);
    var r := LookupFrom(File(data, index), WriteEntries(index), h.key(ms[j].id), 0);
    var k :| 0 <= k < |ms| && h.key(ms[k].id) == h.key(ms[j].id) && r == Hit(ms[k].str);
    assert ms[k].id == ms[j].id;
    assert k == j;
  }
}
