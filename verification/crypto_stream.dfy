// The buffered crypto path of the gRPC provider and the `std::io` reader of the SDK: input chunks are collected,
// sent as numbered payloads, reassembled from the answer in `seq` order and served again in chunks of any size.
module CryptoStream {
  import opened Common

  const CHUNK: nat := 1024 * 1024
  const MAX_READ: nat := 64 * 1024
  const USIZE_MAX: nat := 0xFFFF_FFFF  // usize is 32 bits wide on wasm32

  function Min(a: nat, b: nat): nat {
    if a < b then a else b
  }

  function Max(a: nat, b: nat): nat {
    if a < b then b else a
  }

  // --- splitting -----------------------------------------------------------------

  /** `StreamPayload`; `number` is its `seq` field. */
  datatype Payload = Payload(data: Bytes, number: nat)

  function DivCeil(n: nat, d: nat): nat
    requires d > 0
  {
    n / d + if n % d > 0 then 1 else 0
  }

  function PayloadCount(length: nat): nat {
    Max(DivCeil(length, CHUNK), 1)
  }

  function PayloadAt(data: Bytes, i: nat): Payload {
    var start := Min(i * CHUNK, |data|);
    var end := Min((i + 1) * CHUNK, |data|);
    Payload(data[start..end], i)
  }

  function Payloads(data: Bytes): seq<Payload> {
    seq(PayloadCount(|data|), i requires 0 <= i => PayloadAt(data, i))
  }

  function Join(payloads: seq<Payload>): Bytes {
    if payloads == [] then [] else Join(payloads[..|payloads| - 1]) + payloads[|payloads| - 1].data
  }

  /** The payloads are numbered from 0, hold at most `CHUNK` bytes, all but the last hold exactly `CHUNK`, only
      empty input has an empty one, and together they are the input. */
  lemma PayloadsPartitionTheInput(data: Bytes)
    ensures var ps := Payloads(data);
      && |ps| >= 1
      && (forall i | 0 <= i < |ps| :: ps[i].number == i && |ps[i].data| <= 1048576)
      && (forall i | 0 <= i < |ps| - 1 :: |ps[i].data| == 1048576)
      && (ps[|ps| - 1].data == [] <==> data == [])
      && Join(ps) == data
  {
    var ps := Payloads(data);
    PrefixJoins(data, |ps|);
    assert ps[..|ps|] == ps;
    CountFits(|data|);
    forall i | 0 <= i < |ps|
      ensures ps[i].number == i && |ps[i].data| <= CHUNK
      ensures i < |ps| - 1 ==> |ps[i].data| == CHUNK
      ensures i == |ps| - 1 ==> (ps[i].data == [] <==> data == [])
    {
      PayloadShape(data, i);
    }
  }

  /** The chunks counted cover the input and no chunk is superfluous. */
  lemma CountFits(length: nat)
    ensures var k := PayloadCount(length);
      && length <= k * CHUNK && (length > 0 ==> (k - 1) * CHUNK < length) && (length == 0 ==> k == 1)
  {
  }

  lemma PayloadShape(data: Bytes, i: nat)
    requires i < PayloadCount(|data|)
    ensures var p := PayloadAt(data, i);
      && p.number == i && |p.data| <= CHUNK
      && (i < PayloadCount(|data|) - 1 ==> |p.data| == CHUNK)
      && (i == PayloadCount(|data|) - 1 ==> (p.data == [] <==> data == []))
  {
    CountFits(|data|);
    var p := PayloadAt(data, i);
    assert |p.data| == Min((i + 1) * CHUNK, |data|) - Min(i * CHUNK, |data|);
  }

  lemma {:induction false} PrefixJoins(data: Bytes, k: nat)
    requires k <= PayloadCount(|data|)
    ensures Join(Payloads(data)[..k]) == data[..Min(k * CHUNK, |data|)]
  {
    if k > 0 {
      PrefixJoins(data, k - 1);
      var ps := Payloads(data)[..k];
      assert ps[..k - 1] == Payloads(data)[..k - 1];
      assert ps[k - 1] == PayloadAt(data, k - 1);
    }
  }

  // --- reassembling -----------------------------------------------------------------

  predicate Ordered(ps: seq<Payload>) {
    forall i, j | 0 <= i < j < |ps| :: ps[i].number <= ps[j].number
  }

  predicate StrictlyOrdered(ps: seq<Payload>) {
    forall i, j | 0 <= i < j < |ps| :: ps[i].number < ps[j].number
  }

  /** Insert behind every payload whose number is not greater. */
  function Insert(sorted: seq<Payload>, p: Payload): seq<Payload> {
    if sorted == [] || sorted[|sorted| - 1].number <= p.number then sorted + [p]
    else Insert(sorted[..|sorted| - 1], p) + [sorted[|sorted| - 1]]
  }

  lemma {:induction false} InsertAdds(sorted: seq<Payload>, p: Payload)
    ensures multiset(Insert(sorted, p)) == multiset(sorted) + multiset{p}
  {
    if sorted != [] && sorted[|sorted| - 1].number > p.number {
      var last := sorted[|sorted| - 1];
      InsertAdds(sorted[..|sorted| - 1], p);
      assert sorted == sorted[..|sorted| - 1] + [last];
    }
  }

  lemma {:induction false} InsertKeepsOrder(sorted: seq<Payload>, p: Payload)
    requires Ordered(sorted)
    ensures Ordered(Insert(sorted, p))
  {
    if sorted != [] && sorted[|sorted| - 1].number > p.number {
      var init, last := sorted[..|sorted| - 1], sorted[|sorted| - 1];
      InsertKeepsOrder(init, p);
      InsertAdds(init, p);
      var r := Insert(init, p);
      forall i | 0 <= i < |r|
        ensures r[i].number <= last.number
      {
        assert r[i] in multiset(r);
        assert r[i] in init || r[i] == p;
      }
    }
  }

  /** The stable sort by number: payloads with equal numbers keep the order of arrival. */
  function Sorted(ps: seq<Payload>): seq<Payload> {
    if ps == [] then [] else Insert(Sorted(ps[..|ps| - 1]), ps[|ps| - 1])
  }

  lemma {:induction false} SortedIsOrderedPermutation(ps: seq<Payload>)
    ensures Ordered(Sorted(ps)) && multiset(Sorted(ps)) == multiset(ps)
  {
    if ps != [] {
      var init, last := ps[..|ps| - 1], ps[|ps| - 1];
      SortedIsOrderedPermutation(init);
      InsertKeepsOrder(Sorted(init), last);
      InsertAdds(Sorted(init), last);
      assert ps == init + [last];
    }
  }

  /** The payloads with one number, in order. */
  function Numbered(ps: seq<Payload>, number: nat): seq<Payload> {
    if ps == [] then []
    else
      var last := ps[|ps| - 1];
      Numbered(ps[..|ps| - 1], number) + if last.number == number then [last] else []
  }

  lemma {:induction false} InsertIsStable(sorted: seq<Payload>, p: Payload, number: nat)
    ensures Numbered(Insert(sorted, p), number) == Numbered(sorted, number) + Numbered([p], number)
  {
    assert Numbered([p], number) == if p.number == number then [p] else [];
    var r := Insert(sorted, p);
    if sorted == [] || sorted[|sorted| - 1].number <= p.number {
      assert r[..|r| - 1] == sorted;
    } else {
      InsertIsStable(sorted[..|sorted| - 1], p, number);
      assert r[..|r| - 1] == Insert(sorted[..|sorted| - 1], p);
    }
  }

  /** Sorting keeps the order of arrival among payloads with the same number. */
  lemma {:induction false} SortedIsStable(ps: seq<Payload>, number: nat)
    ensures Numbered(Sorted(ps), number) == Numbered(ps, number)
  {
    if ps != [] {
      var last := ps[|ps| - 1];
      SortedIsStable(ps[..|ps| - 1], number);
      InsertIsStable(Sorted(ps[..|ps| - 1]), last, number);
      assert Numbered([last], number) == if last.number == number then [last] else [];
    }
  }

  lemma FirstsAgree(a: seq<Payload>, b: seq<Payload>)
    requires Ordered(a) && StrictlyOrdered(b) && multiset(a) == multiset(b) && b != []
    ensures a != [] && a[0] == b[0]
  {
    assert b[0] in multiset(a);
    assert a[0] in multiset(b);
    var i :| 0 <= i < |a| && a[i] == b[0];
    var j :| 0 <= j < |b| && b[j] == a[0];
    assert a[0].number <= a[i].number;
    assert b[0].number <= b[j].number;
  }

  lemma RestOfMultiset(a: seq<Payload>)
    requires a != []
    ensures multiset(a[1..]) == multiset(a) - multiset{a[0]}
  {
    assert a == [a[0]] + a[1..];
  }

  /** Only one ordering by number is left when the numbers differ. */
  lemma {:induction false} OrderIsUnique(a: seq<Payload>, b: seq<Payload>)
    requires Ordered(a) && StrictlyOrdered(b) && multiset(a) == multiset(b)
    ensures a == b
  {
    if b == [] {
      assert |multiset(a)| == 0;
    } else {
      FirstsAgree(a, b);
      RestOfMultiset(a);
      RestOfMultiset(b);
      OrderIsUnique(a[1..], b[1..]);
      assert a == [a[0]] + a[1..] && b == [b[0]] + b[1..];
    }
  }

  /** One item of a response stream: a message with or without a payload, or the call's failure. */
  datatype Item = Message(payload: Option<Payload>) | Failure(status: string)

  /** The payloads of the messages before the first failure, in order of arrival. */
  function Arrived(items: seq<Item>): seq<Payload> {
    if items == [] then []
    else
      var last := items[|items| - 1];
      Arrived(items[..|items| - 1]) +
        if last.Message? && last.payload.Some? then [last.payload.value] else []
  }

  /** A message without a payload counts for nothing, wherever it stands. */
  lemma EmptyMessagesAreIgnored(before: seq<Item>, after: seq<Item>)
    ensures Arrived(before + [Message(None)] + after) == Arrived(before + after)
  {
    ArrivedConcat(before + [Message(None)], after);
    ArrivedConcat(before, [Message(None)]);
    ArrivedConcat(before, after);
    assert [Message(None)][..0] == [];
  }

  lemma {:induction false} ArrivedConcat(a: seq<Item>, b: seq<Item>)
    ensures Arrived(a + b) == Arrived(a) + Arrived(b)
  {
    if b == [] {
      assert a + b == a;
    } else {
      ArrivedConcat(a, b[..|b| - 1]);
      assert (a + b)[..|a + b| - 1] == a + b[..|b| - 1];
    }
  }

  predicate Fails(items: seq<Item>) {
    exists i | 0 <= i < |items| :: items[i].Failure?
  }

  /** `collect_payload`: drain the stream, stop at its first failure, otherwise join the chunks in `seq` order. */
  method CollectPayload(items: seq<Item>) returns (r: Result<Bytes, string>)
    ensures r.Err? <==> Fails(items)
    ensures r.Err? ==> exists i | 0 <= i < |items| :: items[i] == Failure(r.error) && !Fails(items[..i])
    ensures r.Ok? ==> r.value == Join(Sorted(Arrived(items)))
  {
    var chunks: seq<Payload> := [];
    for i := 0 to |items|
      invariant !Fails(items[..i]) && chunks == Arrived(items[..i])
    {
      assert items[..i + 1][..i] == items[..i];
      match items[i] {
        case Failure(status) => return Err(status);
        case Message(None) =>
        case Message(Some(chunk)) => chunks := chunks + [chunk];
      }
    }
    assert items[..|items|] == items;
    var sorted := Sorted(chunks);
    var data: Bytes := [];
    for i := 0 to |sorted|
      invariant data == Join(sorted[..i])
    {
      assert sorted[..i + 1][..i] == sorted[..i];
      data := data + sorted[i].data;
    }
    assert sorted[..|sorted|] == sorted;
    return Ok(data);
  }

  /** The payloads of `data`, in whatever order they arrive, are put together to `data` again. */
  lemma AnyArrivalOrderCollects(data: Bytes, arrived: seq<Payload>)
    requires multiset(arrived) == multiset(Payloads(data))
    ensures Join(Sorted(arrived)) == data
  {
    PayloadsPartitionTheInput(data);
    SortedIsOrderedPermutation(arrived);
    OrderIsUnique(Sorted(arrived), Payloads(data));
  }

  /** The stream ends without failure and brings `data`, cut into chunks with distinct numbers in any way and sent in
      any order. */
  ghost predicate Delivers(items: seq<Item>, data: Bytes) {
    && !Fails(items)
    && exists ps :: StrictlyOrdered(ps) && Join(ps) == data && multiset(Arrived(items)) == multiset(ps)
  }

  lemma DeliveredIsCollected(items: seq<Item>, data: Bytes)
    requires Delivers(items, data)
    ensures Join(Sorted(Arrived(items))) == data
  {
    var ps :| StrictlyOrdered(ps) && Join(ps) == data && multiset(Arrived(items)) == multiset(ps);
    SortedIsOrderedPermutation(Arrived(items));
    OrderIsUnique(Sorted(Arrived(items)), ps);
  }

  // --- the resources ------------------------------------------------------------------

  /** `GrpcEncryptor` and `GrpcDecryptor`: `write` collects, `finish` sends everything. */
  class Cryptor {
    var input: Bytes

    constructor ()
      ensures input == []
    {
      input := [];
    }

    method Write(chunk: Bytes)
      modifies this
      ensures input == old(input) + chunk
    {
      input := input + chunk;
    }

    /** Send the collected input as payloads; `sidecar` is how the sidecar answers requests. */
    method Finish(sidecar: seq<Payload> -> seq<Item>) returns (r: Result<CryptoOutput, string>)
      requires |Join(Sorted(Arrived(sidecar(Payloads(input)))))| <= USIZE_MAX
      ensures r.Err? <==> Fails(sidecar(Payloads(input)))
      ensures r.Err? ==> Failure(r.error) in sidecar(Payloads(input))
      ensures r.Ok? ==> fresh(r.value) && r.value.Valid()
      ensures r.Ok? ==> r.value.Remaining() == Join(Sorted(Arrived(sidecar(Payloads(input)))))
      ensures forall data :: Delivers(sidecar(Payloads(input)), data) ==> r.Ok? && r.value.Remaining() == data
    {
      var items := sidecar(Payloads(input));
      forall data | Delivers(items, data)
        ensures Join(Sorted(Arrived(items))) == data
      {
        DeliveredIsCollected(items, data);
      }
      var collected := CollectPayload(items);
      match collected {
        case Err(status) => return Err(status);
        case Ok(data) =>
          var output := new CryptoOutput(data);
          return Ok(output);
      }
    }
  }

  /** The buffered output of a finished call, served in chunks. */
  class CryptoOutput {
    const data: Bytes
    var position: nat

    ghost predicate Valid()
      reads this
    {
      position <= |data| <= USIZE_MAX
    }

    ghost function Remaining(): Bytes
      reads this
      requires Valid()
    {
      data[position..]
    }

    constructor (data: Bytes)
      requires |data| <= USIZE_MAX
      ensures Valid() && Remaining() == data
    {
      this.data := data;
      position := 0;
    }

    /** The next chunk: `None` exactly at the end, otherwise a non-empty prefix of what remains, as long as asked. */
    method Read(maxLen: nat) returns (chunk: Option<Bytes>)
      requires Valid()
      modifies this
      ensures Valid()
      ensures chunk.None? <==> old(Remaining()) == []
      ensures chunk.None? ==> Remaining() == []
      ensures chunk.Some? ==> chunk.value + Remaining() == old(Remaining())
      ensures chunk.Some? ==> |chunk.value| == Min(Max(maxLen, 1), |old(Remaining())|)
    {
      var start := position;
      if start >= |data| {
        return None;
      }
      var asked := Max(maxLen, 1);
      var len := if asked <= USIZE_MAX then asked else USIZE_MAX;
      var end := Min(Min(start + len, USIZE_MAX), |data|);  // saturating addition
      position := end;
      return Some(data[start..end]);
    }
  }

  /** What reads of these sizes ask for in all; a read asks for at least one byte. */
  function Asked(sizes: seq<nat>): nat {
    if sizes == [] then 0 else Asked(sizes[..|sizes| - 1]) + Max(sizes[|sizes| - 1], 1)
  }

  lemma {:induction false} AskedGrows(sizes: seq<nat>, k: nat)
    requires k <= |sizes|
    ensures Asked(sizes[..k]) <= Asked(sizes)
    decreases |sizes|
  {
    if k < |sizes| {
      AskedGrows(sizes[..|sizes| - 1], k);
      assert sizes[..|sizes| - 1][..k] == sizes[..k];
    } else {
      assert sizes[..k] == sizes;
    }
  }

  /** Chunks of any sizes, read from a buffered output until `sizes` or the output ends: all that was asked for or is
      there. */
  method ReadChunks(output: CryptoOutput, sizes: seq<nat>) returns (out: Bytes)
    requires output.Valid()
    modifies output
    ensures output.Valid() && out + output.Remaining() == old(output.Remaining())
    ensures |out| == Min(Asked(sizes), |old(output.Remaining())|)
  {
    out := [];
    for i := 0 to |sizes|
      invariant output.Valid() && out + output.Remaining() == old(output.Remaining())
      invariant |out| == Min(Asked(sizes[..i]), |old(output.Remaining())|)
    {
      assert sizes[..i + 1][..i] == sizes[..i];
      ghost var rest := output.Remaining();
      var chunk := output.Read(sizes[i]);
      match chunk {
        case None =>
          AskedGrows(sizes, i);
          return;
        case Some(bytes) =>
          Regroup(out, bytes, output.Remaining());
          out := out + bytes;
      }
    }
    assert sizes[..|sizes|] == sizes;
  }

  lemma Regroup(front: Bytes, middle: Bytes, back: Bytes)
    ensures front + (middle + back) == (front + middle) + back
  {
  }

  /** How many of the sizes are positive. */
  function Positives(sizes: seq<nat>): nat {
    if sizes == [] then 0
    else Positives(sizes[..|sizes| - 1]) + if sizes[|sizes| - 1] > 0 then 1 else 0
  }

  function Sum(sizes: seq<nat>): nat {
    if sizes == [] then 0 else Sum(sizes[..|sizes| - 1]) + sizes[|sizes| - 1]
  }

  /** The SDK's `io::Read` over a `CryptoOutput`. */
  class OutputReader {
    const output: CryptoOutput
    var pending: Bytes
    var offset: nat

    ghost predicate Valid()
      reads this, output
    {
      output.Valid() && offset <= |pending| <= 65536
    }

    ghost function Remaining(): Bytes
      reads this, output
      requires Valid()
    {
      pending[offset..] + output.Remaining()
    }

    constructor (output: CryptoOutput)
      requires output.Valid()
      ensures Valid() && this.output == output && Remaining() == output.Remaining()
    {
      this.output := output;
      pending, offset := [], 0;
    }

    /** Fill the front of `buf` with the next bytes; 0 on a non-empty buffer exactly at the end. */
    method Read(buf: array<bv8>) returns (n: nat)
      requires Valid()
      modifies this, output, buf
      ensures Valid() && n <= buf.Length
      ensures buf[..n] + Remaining() == old(Remaining())
      ensures buf[n..] == old(buf[..])[n..]
      ensures n == 0 <==> buf.Length == 0 || old(Remaining()) == []
      ensures n ==
        if old(offset) < |old(pending)| then Min(|old(pending)| - old(offset), buf.Length)
        else Min(Min(buf.Length, 65536), |old(Remaining())|)
    {
      if buf.Length == 0 {
        return 0;
      }
      if offset >= |pending| {
        var more := Refill(Min(buf.Length, MAX_READ));
        if !more {
          return 0;
        }
      }
      ghost var served := output.Remaining();
      var available := pending[offset..];
      n := Min(|available|, buf.Length);
      forall i | 0 <= i < n {
        buf[i] := available[i];
      }
      offset := offset + n;
      assert available == buf[..n] + pending[offset..];
      assert available + served == buf[..n] + Remaining();
    }

    /** Ask the provider for the next chunk. */
    method Refill(want: nat) returns (more: bool)
      requires Valid() && offset >= |pending| && 0 < want <= 65536
      modifies this, output
      ensures Valid() && Remaining() == old(Remaining())
      ensures more ==> offset == 0 && |pending| == Min(want, |old(Remaining())|) > 0
      ensures !more ==> Remaining() == []
    {
      assert pending[offset..] == [];
      var chunk := output.Read(want);
      match chunk {
        case None => more := false;
        case Some(bytes) =>
          pending, offset := bytes, 0;
          more := true;
      }
    }

    /** Reads with buffers of any sizes return the bytes in order, none twice and none skipped, and every read with a
        non-empty buffer delivers something until the end. */
    method ReadEach(sizes: seq<nat>) returns (out: Bytes)
      requires Valid()
      modifies this, output
      ensures Valid() && out + Remaining() == old(Remaining())
      ensures Min(Positives(sizes), |old(Remaining())|) <= |out| <= Sum(sizes)
    {
      out := [];
      for i := 0 to |sizes|
        invariant Valid() && out + Remaining() == old(Remaining())
        invariant Remaining() == [] || Positives(sizes[..i]) <= |out|
        invariant |out| <= Sum(sizes[..i])
      {
        assert sizes[..i + 1][..i] == sizes[..i];
        var buf := new bv8[sizes[i]];
        var n := Read(buf);
        Regroup(out, buf[..n], Remaining());
        out := out + buf[..n];
      }
      assert sizes[..|sizes|] == sizes;
    }

    /** Reading with a non-empty buffer until a read returns 0 yields everything. */
    method ReadToEnd(size: nat) returns (out: Bytes)
      requires Valid() && size > 0
      modifies this, output
      ensures Valid() && out == old(Remaining())
    {
      out := [];
      var n := 1;
      while n > 0
        invariant Valid() && out + Remaining() == old(Remaining())
        invariant n == 0 ==> Remaining() == []
        decreases n > 0, |Remaining()|
      {
        var buf := new bv8[size];
        ghost var before := Remaining();
        n := Read(buf);
        assert |before| == n + |Remaining()|;
        Regroup(out, buf[..n], Remaining());
        out := out + buf[..n];
      }
    }
  }

  /** The sidecar answers every request it is sent in payloads with `f` of the data they carry. */
  ghost predicate Answers(sidecar: seq<Payload> -> seq<Item>, f: Bytes -> Bytes) {
    forall data :: Delivers(sidecar(Payloads(data)), f(data))
  }

  /** The sidecar sends the payloads back, in any order. */
  ghost predicate Echoes(sidecar: seq<Payload> -> seq<Item>) {
    forall data ::
      var items := sidecar(Payloads(data));
      !Fails(items) && multiset(Arrived(items)) == multiset(Payloads(data))
  }

  /** A sidecar that sends the payloads back one by one. */
  function Echo(payloads: seq<Payload>): seq<Item> {
    if payloads == [] then []
    else Echo(payloads[..|payloads| - 1]) + [Message(Some(payloads[|payloads| - 1]))]
  }

  lemma {:induction false} EchoArrives(payloads: seq<Payload>)
    ensures Arrived(Echo(payloads)) == payloads && !Fails(Echo(payloads))
  {
    if payloads != [] {
      var init, items := payloads[..|payloads| - 1], Echo(payloads);
      EchoArrives(init);
      assert items[..|items| - 1] == Echo(init);
      assert payloads == init + [payloads[|payloads| - 1]];
    }
  }

  lemma EchoEchoes()
    ensures Echoes(Echo)
  {
    forall data: Bytes
      ensures var items := Echo(Payloads(data)); !Fails(items) && multiset(Arrived(items)) == multiset(Payloads(data))
    {
      EchoArrives(Payloads(data));
    }
  }

  lemma EchoAnswers(sidecar: seq<Payload> -> seq<Item>)
    requires Echoes(sidecar)
    ensures Answers(sidecar, data => data)
  {
    forall data: Bytes
      ensures Delivers(sidecar(Payloads(data)), data)
    {
      PayloadsPartitionTheInput(data);
      assert StrictlyOrdered(Payloads(data));
    }
  }

  /** The whole path: whatever the sizes of the writes and reads, the bytes that come out are the sidecar's answer to
      all the bytes that went in. */
  method Pipeline(chunks: seq<Bytes>, sidecar: seq<Payload> -> seq<Item>, ghost f: Bytes -> Bytes,
                  chunkSizes: seq<nat>, sizes: seq<nat>, lastSize: nat)
    returns (out: Bytes)
    requires Answers(sidecar, f) && |f(Flatten(chunks))| <= USIZE_MAX && lastSize > 0
    ensures out == f(Flatten(chunks))
  {
    var cryptor := new Cryptor();
    for i := 0 to |chunks|
      invariant cryptor.input == Flatten(chunks[..i])
    {
      assert chunks[..i + 1][..i] == chunks[..i];
      cryptor.Write(chunks[i]);
    }
    assert chunks[..|chunks|] == chunks;
    DeliveredIsCollected(sidecar(Payloads(cryptor.input)), f(cryptor.input));
    var finished := cryptor.Finish(sidecar);
    out := ServeAll(finished.value, chunkSizes, sizes, lastSize);
  }

  /** Against a sidecar that sends the payloads back in any order the bytes out are the bytes in. */
  method EchoPipeline(chunks: seq<Bytes>, sidecar: seq<Payload> -> seq<Item>, chunkSizes: seq<nat>, sizes: seq<nat>,
                      lastSize: nat)
    returns (out: Bytes)
    requires Echoes(sidecar) && |Flatten(chunks)| <= USIZE_MAX && lastSize > 0
    ensures out == Flatten(chunks)
  {
    EchoAnswers(sidecar);
    out := Pipeline(chunks, sidecar, data => data, chunkSizes, sizes, lastSize);
  }

  lemma FlattenOne(chunk: Bytes)
    ensures Flatten([chunk]) == chunk
  {
    assert [chunk][..0] == [];
  }

  /** Encrypting and then decrypting, each through the whole path, gives the input back when the sidecar's decryption
      inverts its encryption. */
  method EncryptThenDecrypt(chunks: seq<Bytes>,
                            encryptor: seq<Payload> -> seq<Item>, ghost encrypt: Bytes -> Bytes,
                            decryptor: seq<Payload> -> seq<Item>, ghost decrypt: Bytes -> Bytes,
                            sizes: seq<nat>, lastSize: nat)
    returns (out: Bytes)
    requires Answers(encryptor, encrypt) && Answers(decryptor, decrypt)
    requires forall data :: decrypt(encrypt(data)) == data
    requires |encrypt(Flatten(chunks))| <= USIZE_MAX && |Flatten(chunks)| <= USIZE_MAX && lastSize > 0
    ensures out == Flatten(chunks)
  {
    var cipher := Pipeline(chunks, encryptor, encrypt, [], sizes, lastSize);
    ghost var plain := Flatten(chunks);
    assert decrypt(encrypt(plain)) == plain;
    FlattenOne(cipher);
    out := Pipeline([cipher], decryptor, decrypt, sizes, [], lastSize);
  }

  /** Chunked reads of the output followed by reads through the reader adapter miss and repeat nothing. */
  method ServeAll(output: CryptoOutput, chunkSizes: seq<nat>, sizes: seq<nat>, lastSize: nat) returns (out: Bytes)
    requires output.Valid() && lastSize > 0
    modifies output
    ensures out == old(output.Remaining())
  {
    var front := ReadChunks(output, chunkSizes);
    var reader := new OutputReader(output);
    var middle := reader.ReadEach(sizes);
    var back := reader.ReadToEnd(lastSize);
    out := front + (middle + back);
  }
}
