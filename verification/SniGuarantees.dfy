/** What parseSNI finds in ClientHellos, whole and truncated. */
module SniGuarantees {
  import opened Integers
  import opened Text
  import opened Sni

  // ------------------------------------------------------------------ encoder

  type Word16 = n: int | 0 <= n < 0x1_0000

  datatype NameEntry = NameEntry(kind: Byte, name: seq<Byte>)

  /** An extension of a ClientHello; server_name is extension 0. */
  datatype Extension = ServerNames(entries: seq<NameEntry>) | OtherExtension(kind: Word16, data: seq<Byte>)

  /** fixed is the 2-byte version and the 32-byte random. */
  datatype ClientHello = ClientHello(recordVersion: seq<Byte>, fixed: seq<Byte>, session: seq<Byte>, ciphers: seq<Byte>,
                                     compression: seq<Byte>, extensions: seq<Extension>)

  function Enc16(n: int): (r: seq<Byte>)
    requires 0 <= n < 0x1_0000
    ensures |r| == 2 && Dec16(r[0], r[1]) == n
  {
    [n / 256, n % 256]
  }

  /** A vector preceded by its length in one byte, or in two. */
  function Vec8(s: seq<Byte>): seq<Byte>
    requires |s| < 256
  {
    [|s|] + s
  }

  function Vec16(s: seq<Byte>): seq<Byte>
    requires |s| < 0x1_0000
  {
    Enc16(|s|) + s
  }

  function NameListSize(entries: seq<NameEntry>): nat {
    if entries == [] then 0 else 3 + |entries[0].name| + NameListSize(entries[1..])
  }

  function NameList(entries: seq<NameEntry>): (r: seq<Byte>)
    requires NameListSize(entries) < 0x1_0000
    ensures |r| == NameListSize(entries)
  {
    if entries == [] then [] else [entries[0].kind] + Vec16(entries[0].name) + NameList(entries[1..])
  }

  function DataSize(e: Extension): nat {
    match e case ServerNames(entries) => 2 + NameListSize(entries) case OtherExtension(_, data) => |data|
  }

  predicate Encodable(e: Extension) {
    DataSize(e) < 0x1_0000 && (e.OtherExtension? ==> e.kind != 0)
  }

  function Kind(e: Extension): Word16 { if e.ServerNames? then 0 else e.kind }

  function Data(e: Extension): (r: seq<Byte>)
    requires Encodable(e)
    ensures |r| == DataSize(e)
  {
    match e case ServerNames(entries) => Vec16(NameList(entries)) case OtherExtension(_, data) => data
  }

  predicate AllEncodable(es: seq<Extension>) {
    es == [] || (Encodable(es[0]) && AllEncodable(es[1..]))
  }

  function Encode(es: seq<Extension>): seq<Byte>
    requires AllEncodable(es)
  {
    if es == [] then [] else Enc16(Kind(es[0])) + Vec16(Data(es[0])) + Encode(es[1..])
  }

  predicate WellFormed(h: ClientHello) {
    && |h.recordVersion| == 2 && |h.fixed| == 34 && |h.session| < 256 && |h.ciphers| < 0x1_0000 && |h.compression| < 256
    && AllEncodable(h.extensions) && |Encode(h.extensions)| < 0x1_0000
    && 4 + |Body(h)| < 0x1_0000
  }

  function Body(h: ClientHello): seq<Byte>
    requires |h.session| < 256 && |h.ciphers| < 0x1_0000 && |h.compression| < 256
    requires AllEncodable(h.extensions) && |Encode(h.extensions)| < 0x1_0000
  {
    h.fixed + Vec8(h.session) + Vec16(h.ciphers) + Vec8(h.compression) + Vec16(Encode(h.extensions))
  }

  /** The TLS record (section 5.1 of RFC 8446) that carries a ClientHello with the given body (section 4). */
  function Framed(version: seq<Byte>, body: seq<Byte>): seq<Byte>
    requires 4 + |body| < 0x1_0000
  {
    [0x16] + version + Enc16(4 + |body|) + [0x01] + [0] + Enc16(|body|) + body
  }

  function Record(h: ClientHello): seq<Byte>
    requires WellFormed(h)
  {
    Framed(h.recordVersion, Body(h))
  }

  /** The entries of the first server_name extension. */
  function FirstNames(es: seq<Extension>): Option<seq<NameEntry>> {
    if es == [] then None else if es[0].ServerNames? then Some(es[0].entries) else FirstNames(es[1..])
  }

  /** The first host_name among the entries; entries of other kinds, all with a 16-bit length, may precede it. */
  function FirstHostName(entries: seq<NameEntry>): Option<seq<Byte>> {
    if entries == [] then None
    else if entries[0].kind == 0 then Some(entries[0].name)
    else FirstHostName(entries[1..])
  }

  /** The host that a ClientHello with these extensions names (section 3 of RFC 6066). */
  function HostName(es: seq<Extension>): Option<seq<Byte>> {
    match FirstNames(es) case None => None case Some(entries) => FirstHostName(entries)
  }

  /** The name of the first entry of the first server_name extension, if that entry is a host_name. */
  function LeadingHost(es: seq<Extension>): Option<seq<Byte>> {
    if es == [] then None
    else if es[0].ServerNames? then
      if es[0].entries != [] && es[0].entries[0].kind == 0 then Some(es[0].entries[0].name) else None
    else LeadingHost(es[1..])
  }

  // ------------------------------------------------------------------- layout

  /** Where the extensions start in the record. */
  function BlockStart(h: ClientHello): nat {
    9 + 34 + 1 + |h.session| + 2 + |h.ciphers| + 1 + |h.compression| + 2
  }

  lemma BodyLayout(h: ClientHello)
    requires WellFormed(h)
    ensures Lengths(Body(h), |h.session|, |h.ciphers|, |h.compression|, |Encode(h.extensions)|)
    ensures Body(h)[BlockStart(h) - 9..] == Encode(h.extensions)
  {
    var b1 := h.fixed + Vec8(h.session);
    var b2 := b1 + Vec16(h.ciphers);
    var b3 := b2 + Vec8(h.compression);
    assert b1[34] == |h.session|;
    assert Dec16(b2[|b1|], b2[|b1| + 1]) == |h.ciphers|;
    assert b3[|b2|] == |h.compression|;
  }

  lemma FramedIsFrame(version: seq<Byte>, body: seq<Byte>)
    requires |version| == 2 && 4 + |body| < 0x1_0000
    ensures Frames(Framed(version, body), body)
  {
  }

  lemma RecordLayout(h: ClientHello)
    requires WellFormed(h)
    ensures Frames(Record(h), Body(h))
    ensures |Record(h)| == BlockStart(h) + |Encode(h.extensions)|
  {
    FramedIsFrame(h.recordVersion, Body(h));
    BodyLayout(h);
  }

  /** buf holds the first n bytes of a stream that starts with r. */
  predicate Received(buf: seq<Byte>, n: nat, r: seq<Byte>) {
    n <= |buf| && forall i :: 0 <= i < n && i < |r| ==> buf[i] == r[i]
  }

  /** Of the record r around body b, a parser that has received n bytes sees the body's first n - 9. */
  lemma BodyOf(r: seq<Byte>, b: seq<Byte>, buf: seq<Byte>, n: nat)
    requires Frames(r, b)
    requires Received(buf, n, r)
    ensures n < 9 ==> HelloBody(Slice(buf, 0, n)).None?
    ensures n >= 9 ==>
      var body := Slice(buf, 9, (if n < |r| then n else |r|) - 9);
      HelloBody(Slice(buf, 0, n)) == Some(body) && Fronts(body, b)
  {
    if n >= 9 {
      var body := Slice(buf, 9, (if n < |r| then n else |r|) - 9);
      forall i | 0 <= i < body.len ensures buf[9 + i] == b[i] {
        assert r[9..][i] == r[9 + i];
      }
    }
  }

  /** body is the first body.len bytes of b. */
  ghost predicate Fronts(body: Slice, b: seq<Byte>) {
    body.Valid() && body.len <= |b| && forall i :: 0 <= i < body.len ==> body.buf[body.off + i] == b[i]
  }

  /** The lengths stored in a body: session id, cipher suites, compression methods, extensions. */
  ghost predicate Lengths(b: seq<Byte>, session: nat, ciphers: nat, compression: nat, exts: nat) {
    var p := 35 + session; var q := p + 2 + ciphers; var r := q + 1 + compression;
    && |b| == r + 2 + exts
    && b[34] == session && Dec16(b[p], b[p + 1]) == ciphers && b[q] == compression && Dec16(b[r], b[r + 1]) == exts
  }

  lemma BlockOf(b: seq<Byte>, session: nat, ciphers: nat, compression: nat, exts: nat, body: Slice, strict: bool)
    requires Lengths(b, session, ciphers, compression, exts) && Fronts(body, b)
    ensures Extensions(body, strict) ==
      if body.len + exts < |b| || (if strict then body.len < |b| else |body.buf| < body.off + |b|) then None
      else Some(Slice(body.buf, body.off + |b| - exts, exts))
  {
    var p := 35 + session;
    var q := p + 2 + ciphers;
    var r := q + 1 + compression;
    SkipsByte(b, body, 34);
    SkipsWord(b, body, p);
    SkipsByte(b, body, q);
    SkipsTo(body, p, q, r, strict);
    FindsLastBlock(b, body, r, strict);
  }

  lemma SkipsTo(body: Slice, p: nat, q: nat, r: nat, strict: bool)
    requires body.Valid() && 34 <= p && p + 1 <= q
    requires Skip8(body, 34) == (if 34 < body.len then Some(p) else None)
    requires Skip16(body, p) == (if p + 1 < body.len then Some(q) else None)
    requires Skip8(body, q) == (if q < body.len then Some(r) else None)
    ensures Extensions(body, strict) == if q < body.len then BlockAt(body, r, strict) else None
  {
  }

  lemma SkipsByte(b: seq<Byte>, body: Slice, p: nat)
    requires Fronts(body, b) && p < |b|
    ensures Skip8(body, p) == if p < body.len then Some(p + 1 + b[p]) else None
  {
  }

  lemma SkipsWord(b: seq<Byte>, body: Slice, p: nat)
    requires Fronts(body, b) && p + 1 < |b|
    ensures Skip16(body, p) == if p + 1 < body.len then Some(p + 2 + Dec16(b[p], b[p + 1])) else None
  {
  }

  /** The length-prefixed block at p that ends b. */
  lemma FindsLastBlock(b: seq<Byte>, body: Slice, p: nat, strict: bool)
    requires Fronts(body, b) && p + 1 < |b|
    requires |b| == p + 2 + Dec16(b[p], b[p + 1])
    ensures BlockAt(body, p, strict) ==
      if body.len < p + 2 || (if strict then body.len < |b| else |body.buf| < body.off + |b|) then None
      else Some(Slice(body.buf, body.off + p + 2, |b| - p - 2))
  {
    if p + 2 <= body.len {
      assert body.Word(p) == Dec16(b[p], b[p + 1]);
    }
  }

  /** r is a record around body b. */
  ghost predicate Frames(r: seq<Byte>, b: seq<Byte>) {
    |r| == 9 + |b| && r[0] == 0x16 && Dec16(r[3], r[4]) == 4 + |b| && r[5] == 0x01 && r[9..] == b
  }

  /** r is a record whose extensions, exts bytes of them, start at start. */
  ghost predicate Locates(r: seq<Byte>, start: nat, exts: nat) {
    && |r| == start + exts
    && exists b, session, ciphers, compression :: Frames(r, b) && Lengths(b, session, ciphers, compression, exts)
  }

  /** Up to the extensions, parsing depends on the received bytes only, and gets there iff they reach that far. */
  lemma FindsBlock(r: seq<Byte>, start: nat, exts: nat, buf: seq<Byte>, n: nat, strict: bool)
    requires Locates(r, start, exts) && Received(buf, n, r)
    ensures FindExtensions(Slice(buf, 0, n), strict) ==
      if n < start || (if strict then n < |r| else |buf| < |r|) then None else Some(Slice(buf, start, exts))
  {
    var b, session, ciphers, compression :| Frames(r, b) && Lengths(b, session, ciphers, compression, exts);
    BodyOf(r, b, buf, n);
    if n >= 9 {
      var body := Slice(buf, 9, (if n < |r| then n else |r|) - 9);
      BlockInBody(b, start, exts, body, n, strict);
      ViaBody(Slice(buf, 0, n), body, strict);
    }
  }

  lemma ViaBody(data: Slice, body: Slice, strict: bool)
    requires data.Valid() && body.Valid() && HelloBody(data) == Some(body)
    ensures FindExtensions(data, strict) == Extensions(body, strict)
  {
  }

  lemma BlockInBody(b: seq<Byte>, start: nat, exts: nat, body: Slice, n: nat, strict: bool)
    requires exists session, ciphers, compression :: Lengths(b, session, ciphers, compression, exts)
    requires Fronts(body, b) && body.off == 9 && 9 + |b| == start + exts
    requires n >= 9 && body.len == (if n < 9 + |b| then n - 9 else |b|)
    ensures Extensions(body, strict) ==
      if n < start || (if strict then n < start + exts else |body.buf| < start + exts) then None
      else Some(Slice(body.buf, start, exts))
  {
    var session, ciphers, compression :| Lengths(b, session, ciphers, compression, exts);
    BlockOf(b, session, ciphers, compression, exts, body, strict);
  }

  lemma RecordLocates(h: ClientHello)
    requires WellFormed(h)
    ensures Locates(Record(h), BlockStart(h), |Encode(h.extensions)|)
    ensures Record(h)[BlockStart(h)..] == Encode(h.extensions)
  {
    RecordLayout(h);
    BodyLayout(h);
    var r, b := Record(h), Body(h);
    assert r[BlockStart(h)..] == r[9..][BlockStart(h) - 9..];
  }

  // ---------------------------------------------------------------- round trip

  /** buf holds as much of s, from at, as its first n bytes cover. */
  ghost predicate Holds(buf: seq<Byte>, n: nat, at: nat, s: seq<Byte>) {
    at + |s| <= |buf| && forall i :: 0 <= i < |s| ==> HoldsByte(buf, n, at, s, i)
  }

  predicate HoldsByte(buf: seq<Byte>, n: nat, at: nat, s: seq<Byte>, i: nat)
    requires i < |s| && at + |s| <= |buf|
  {
    at + i < n ==> buf[at + i] == s[i]
  }

  lemma HoldsParts(buf: seq<Byte>, n: nat, at: nat, a: seq<Byte>, b: seq<Byte>)
    requires Holds(buf, n, at, a + b)
    ensures Holds(buf, n, at, a) && Holds(buf, n, at + |a|, b)
  {
    forall i | 0 <= i < |a| ensures HoldsByte(buf, n, at, a, i) {
      assert HoldsByte(buf, n, at, a + b, i) && (a + b)[i] == a[i];
    }
    var start := at + |a|;
    forall i | 0 <= i < |b| ensures HoldsByte(buf, n, start, b, i) {
      assert HoldsByte(buf, n, at, a + b, |a| + i) && (a + b)[|a| + i] == b[i];
    }
  }

  lemma HoldsWhole(buf: seq<Byte>, n: nat, at: nat, s: seq<Byte>)
    requires Holds(buf, n, at, s) && at + |s| <= n
    ensures buf[at..at + |s|] == s
  {
    forall i | 0 <= i < |s| ensures buf[at..at + |s|][i] == s[i] {
      assert HoldsByte(buf, n, at, s, i);
    }
  }

  lemma HoldsLength(buf: seq<Byte>, n: nat, at: nat, value: nat)
    requires value < 0x1_0000 && Holds(buf, n, at, Enc16(value)) && at + 2 <= n
    ensures Dec16(buf[at], buf[at + 1]) == value
  {
    assert HoldsByte(buf, n, at, Enc16(value), 0) && HoldsByte(buf, n, at, Enc16(value), 1);
  }

  /** An extension's bytes: kind, size, data; then the others'. */
  lemma EncodeStep(es: seq<Extension>)
    requires AllEncodable(es) && es != []
    ensures Encode(es) == Enc16(Kind(es[0])) + (Enc16(DataSize(es[0])) + (Data(es[0]) + Encode(es[1..])))
  {
  }

  lemma EncodedSize(es: seq<Extension>)
    requires AllEncodable(es) && es != []
    ensures |Encode(es)| == 4 + DataSize(es[0]) + |Encode(es[1..])|
  {
    EncodeStep(es);
  }

  lemma HoldsTwoSizes(buf: seq<Byte>, n: nat, at: nat, kind: nat, size: nat, data: seq<Byte>, rest: seq<Byte>)
    requires kind < 0x1_0000 && size < 0x1_0000 && at + 4 <= n
    requires Holds(buf, n, at, Enc16(kind) + (Enc16(size) + (data + rest)))
    ensures Dec16(buf[at], buf[at + 1]) == kind && Dec16(buf[at + 2], buf[at + 3]) == size
    ensures Holds(buf, n, at + 4, data) && Holds(buf, n, at + 4 + |data|, rest)
  {
    HoldsParts(buf, n, at, Enc16(kind), Enc16(size) + (data + rest));
    HoldsParts(buf, n, at + 2, Enc16(size), data + rest);
    HoldsParts(buf, n, at + 4, data, rest);
    HoldsLength(buf, n, at, kind);
    HoldsLength(buf, n, at + 2, size);
  }

  lemma {:induction false} HoldsExtension(buf: seq<Byte>, n: nat, at: nat, es: seq<Extension>)
    requires AllEncodable(es) && es != [] && Holds(buf, n, at, Encode(es)) && at + 4 <= n
    ensures Dec16(buf[at], buf[at + 1]) == Kind(es[0]) && Dec16(buf[at + 2], buf[at + 3]) == DataSize(es[0])
    ensures Holds(buf, n, at + 4, Data(es[0])) && Holds(buf, n, at + 4 + DataSize(es[0]), Encode(es[1..]))
    ensures |Encode(es)| == 4 + DataSize(es[0]) + |Encode(es[1..])|
  {
    EncodeStep(es);
    HoldsTwoSizes(buf, n, at, Kind(es[0]), DataSize(es[0]), Data(es[0]), Encode(es[1..]));
  }

  lemma {:induction false} NameListParts(entries: seq<NameEntry>)
    requires NameListSize(entries) < 0x1_0000 && entries != []
    ensures var name, rest := entries[0].name, NameList(entries[1..]);
      && |name| < 0x1_0000 && NameListSize(entries) == 3 + |name| + |rest|
      && Vec16(NameList(entries)) ==
           Enc16(NameListSize(entries)) + ([entries[0].kind] + (Enc16(|name|) + (name + rest)))
  {
  }

  lemma HoldsFirstName(buf: seq<Byte>, n: nat, at: nat, size: nat, kind: Byte, name: seq<Byte>, rest: seq<Byte>)
    requires size < 0x1_0000 && |name| < 0x1_0000 && at + 5 + |name| <= n
    requires Holds(buf, n, at, Enc16(size) + ([kind] + (Enc16(|name|) + (name + rest))))
    ensures Dec16(buf[at], buf[at + 1]) == size && buf[at + 2] == kind && Dec16(buf[at + 3], buf[at + 4]) == |name|
    ensures buf[at + 5..at + 5 + |name|] == name
  {
    HoldsParts(buf, n, at, Enc16(size), [kind] + (Enc16(|name|) + (name + rest)));
    HoldsParts(buf, n, at + 2, [kind], Enc16(|name|) + (name + rest));
    HoldsParts(buf, n, at + 3, Enc16(|name|), name + rest);
    HoldsParts(buf, n, at + 5, name, rest);
    HoldsLength(buf, n, at, size);
    assert HoldsByte(buf, n, at + 2, [kind], 0);
    HoldsLength(buf, n, at + 3, |name|);
    HoldsWhole(buf, n, at + 5, name);
  }

  lemma {:induction false} ServerNameEncoded(buf: seq<Byte>, at: nat, entries: seq<NameEntry>, strict: bool)
    requires 2 + NameListSize(entries) < 0x1_0000 && Holds(buf, |buf|, at, Vec16(NameList(entries)))
    ensures ServerName(Slice(buf, at, 2 + NameListSize(entries)), strict)
      == if entries != [] && entries[0].kind == 0 then Some(entries[0].name) else None
  {
    var size := NameListSize(entries);
    if entries == [] {
      HoldsParts(buf, |buf|, at, Enc16(size), []);
      assert Vec16(NameList(entries)) == Enc16(size) + [];
      HoldsLength(buf, |buf|, at, size);
    } else {
      NameListParts(entries);
      HoldsFirstName(buf, |buf|, at, size, entries[0].kind, entries[0].name, NameList(entries[1..]));
    }
    NameStep(buf, at, 2 + size, strict);
  }

  /** What ServerName reads, by position, when the list lies inside the extension. */
  lemma NameStep(buf: seq<Byte>, at: nat, len: nat, strict: bool)
    requires at + len <= |buf| && 2 <= len && 2 + Dec16(buf[at], buf[at + 1]) <= len
    ensures ServerName(Slice(buf, at, len), strict) ==
      var listLen := Dec16(buf[at], buf[at + 1]);
      if listLen < 3 || buf[at + 2] != 0 then None
      else
        var size := Dec16(buf[at + 3], buf[at + 4]);
        if (if strict then 3 + size <= listLen else at + 5 + size <= |buf|)
        then Some(buf[at + 5..at + 5 + size]) else None
  {
    var ext, listLen := Slice(buf, at, len), Dec16(buf[at], buf[at + 1]);
    assert ext.Word(0) == listLen;
    var list := Slice(buf, at + 2, listLen);
    assert ext.Cut(2, 2 + listLen) == list;
    if listLen >= 3 {
      assert list.Word(1) == Dec16(buf[at + 3], buf[at + 4]);
    }
  }

  /** One step of the walk over extensions whose first one lies inside the block and the buffer. */
  lemma WalkStep(buf: seq<Byte>, at: nat, len: nat, strict: bool)
    requires at + len <= |buf| && 4 <= len && 4 + Dec16(buf[at + 2], buf[at + 3]) <= len
    ensures var size := Dec16(buf[at + 2], buf[at + 3]);
      WalkExtensions(Slice(buf, at, len), strict) ==
        if Dec16(buf[at], buf[at + 1]) == 0 then ServerName(Slice(buf, at + 4, size), strict)
        else WalkExtensions(Slice(buf, at + 4 + size, len - 4 - size), strict)
  {
    var exts := Slice(buf, at, len);
    if exts.Word(0) == 0 {
      assert exts.Cut(4, 4 + exts.Word(2)) == Slice(buf, at + 4, exts.Word(2));
      assert WalkExtensions(exts, strict) == ServerName(exts.Cut(4, 4 + exts.Word(2)), strict);
    } else {
      assert exts.From(4 + exts.Word(2)) == Slice(buf, at + 4 + exts.Word(2), len - 4 - exts.Word(2));
      assert WalkExtensions(exts, strict) == WalkExtensions(exts.From(4 + exts.Word(2)), strict);
    }
  }

  /** The same step, for a server_name and for any other extension, with its positions given. */
  lemma StepInto(buf: seq<Byte>, at: nat, len: nat, size: nat, strict: bool)
    requires at + len <= |buf| && 4 + size <= len
    requires Dec16(buf[at], buf[at + 1]) == 0 && Dec16(buf[at + 2], buf[at + 3]) == size
    ensures WalkExtensions(Slice(buf, at, len), strict) == ServerName(Slice(buf, at + 4, size), strict)
  {
    WalkStep(buf, at, len, strict);
  }

  lemma StepPast(buf: seq<Byte>, at: nat, len: nat, size: nat, start: nat, rest: nat, strict: bool)
    requires at + len <= |buf| && 4 + size <= len && start == at + 4 + size && rest == len - 4 - size
    requires Dec16(buf[at], buf[at + 1]) != 0 && Dec16(buf[at + 2], buf[at + 3]) == size
    ensures WalkExtensions(Slice(buf, at, len), strict) == WalkExtensions(Slice(buf, start, rest), strict)
  {
    WalkStep(buf, at, len, strict);
  }

  lemma {:induction false} WalkToEncoded(es: seq<Extension>, buf: seq<Byte>, at: nat, strict: bool)
    requires AllEncodable(es) && es != [] && es[0].ServerNames? && Holds(buf, |buf|, at, Encode(es))
    ensures WalkExtensions(Slice(buf, at, |Encode(es)|), strict) == LeadingHost(es)
  {
    EncodedSize(es);
    HoldsExtension(buf, |buf|, at, es);
    StepInto(buf, at, |Encode(es)|, DataSize(es[0]), strict);
    ServerNameEncoded(buf, at + 4, es[0].entries, strict);
  }

  /** A walk past an extension that is no server_name, once the extension's header has been received. */
  lemma WalkPastOther(es: seq<Extension>, buf: seq<Byte>, n: nat, at: nat, strict: bool)
    requires AllEncodable(es) && es != [] && at + 4 <= n && es[0].OtherExtension? && Holds(buf, n, at, Encode(es))
    ensures var next := at + 4 + DataSize(es[0]);
      && Holds(buf, n, next, Encode(es[1..]))
      && WalkExtensions(Slice(buf, at, |Encode(es)|), strict) ==
           WalkExtensions(Slice(buf, next, |Encode(es[1..])|), strict)
  {
    HoldsExtension(buf, n, at, es);
    StepPast(buf, at, |Encode(es)|, DataSize(es[0]), at + 4 + DataSize(es[0]), |Encode(es[1..])|, strict);
  }

  lemma {:induction false} WalksEncoded(es: seq<Extension>, buf: seq<Byte>, at: nat, strict: bool)
    requires AllEncodable(es) && Holds(buf, |buf|, at, Encode(es))
    ensures WalkExtensions(Slice(buf, at, |Encode(es)|), strict) == LeadingHost(es)
    decreases |es|
  {
    if es != [] {
      if es[0].ServerNames? {
        WalkToEncoded(es, buf, at, strict);
      } else {
        EncodedSize(es);
        WalkPastOther(es, buf, |buf|, at, strict);
        WalksEncoded(es[1..], buf, at + 4 + DataSize(es[0]), strict);
      }
    }
  }

  /** The extensions of a record that has been received as far as the parser needs them. */
  lemma SniInRecord(r: seq<Byte>, start: nat, exts: nat, buf: seq<Byte>, n: nat, strict: bool)
    requires Locates(r, start, exts) && Received(buf, n, r)
    ensures SniOf(Slice(buf, 0, n), strict) ==
      if n < start || (if strict then n < |r| else |buf| < |r|) then None
      else WalkExtensions(Slice(buf, start, exts), strict)
  {
    FindsBlock(r, start, exts, buf, n, strict);
  }

  /**
   Encoder inverse: of any well-formed ClientHello that has been received whole, with
   whatever follows it, parseSNI returns exactly the name of the first entry of the first
   server_name extension, and fails if there is none or it is no host_name.
   */
  lemma SniOfEncoded(h: ClientHello, buf: seq<Byte>, n: nat, strict: bool)
    requires WellFormed(h) && |Record(h)| <= n && Received(buf, n, Record(h))
    ensures SniOf(Slice(buf, 0, n), strict) == LeadingHost(h.extensions)
  {
    var r, start, exts := Record(h), BlockStart(h), Encode(h.extensions);
    RecordLocates(h);
    SniInRecord(r, start, |exts|, buf, n, strict);
    ReceivedTail(buf, n, r, start, exts);
    WalksEncoded(h.extensions, buf, start, strict);
  }

  /** A server_name list, if it holds a host_name at all, begins with it. */
  predicate HostLeads(es: seq<Extension>) {
    HostName(es).Some? ==> FirstNames(es).value[0].kind == 0
  }

  lemma {:induction false} LeadingIff(es: seq<Extension>)
    ensures LeadingHost(es) == HostName(es) <==> HostLeads(es)
    ensures LeadingHost(es).Some? ==> LeadingHost(es) == HostName(es)
  {
    if es != [] && !es[0].ServerNames? {
      LeadingIff(es[1..]);
    }
  }

  /**
   When the host that a ClientHello names is found: if and only if no entry of another kind
   precedes it in the list. Otherwise parseSNI fails; it never returns another entry's name.
   */
  lemma HostNameFoundIff(h: ClientHello, buf: seq<Byte>, n: nat, strict: bool)
    requires WellFormed(h) && |Record(h)| <= n && Received(buf, n, Record(h))
    ensures SniOf(Slice(buf, 0, n), strict) == HostName(h.extensions) <==> HostLeads(h.extensions)
    ensures !HostLeads(h.extensions) ==> SniOf(Slice(buf, 0, n), strict) == None
  {
    SniOfEncoded(h, buf, n, strict);
    LeadingIff(h.extensions);
  }

  /** A ClientHello without any extensions, as before TLS 1.3: its body ends after the compression methods. */
  function BareBody(fixed: seq<Byte>, session: seq<Byte>, ciphers: seq<Byte>, compression: seq<Byte>): seq<Byte>
    requires |session| < 256 && |ciphers| < 0x1_0000 && |compression| < 256
  {
    fixed + Vec8(session) + Vec16(ciphers) + Vec8(compression)
  }

  lemma BareLayout(fixed: seq<Byte>, session: seq<Byte>, ciphers: seq<Byte>, compression: seq<Byte>)
    requires |fixed| == 34 && |session| < 256 && |ciphers| < 0x1_0000 && |compression| < 256
    ensures var b, p := BareBody(fixed, session, ciphers, compression), 35 + |session|;
      && |b| == p + 3 + |ciphers| + |compression|
      && b[34] == |session| && Dec16(b[p], b[p + 1]) == |ciphers| && b[p + 2 + |ciphers|] == |compression|
  {
    var b1 := fixed + Vec8(session);
    var b2 := b1 + Vec16(ciphers);
    assert b1[34] == |session|;
    assert Dec16(b2[|b1|], b2[|b1| + 1]) == |ciphers|;
  }

  /** A ClientHello without extensions names no host, however much of it has been received. */
  lemma BareHelloFails(version: seq<Byte>, fixed: seq<Byte>, session: seq<Byte>, ciphers: seq<Byte>,
                                         compression: seq<Byte>, buf: seq<Byte>, n: nat, strict: bool)
    requires |version| == 2 && |fixed| == 34 && |session| < 256 && |ciphers| < 0x1_0000 && |compression| < 256
    requires var b := BareBody(fixed, session, ciphers, compression);
      4 + |b| < 0x1_0000 && Received(buf, n, Framed(version, b))
    ensures SniOf(Slice(buf, 0, n), strict) == None
  {
    var b := BareBody(fixed, session, ciphers, compression);
    BareLayout(fixed, session, ciphers, compression);
    FramedIsFrame(version, b);
    BodyOf(Framed(version, b), b, buf, n);
    if n >= 9 {
      BareBodyEnds(b, |session|, |ciphers|, HelloBody(Slice(buf, 0, n)).value, strict);
    }
  }

  lemma BareBodyEnds(b: seq<Byte>, session: nat, ciphers: nat, body: Slice, strict: bool)
    requires Fronts(body, b) && 38 + session + ciphers <= |b|
    requires var p := 35 + session;
      b[34] == session && Dec16(b[p], b[p + 1]) == ciphers && p + 3 + ciphers + b[p + 2 + ciphers] == |b|
    ensures Extensions(body, strict) == None
  {
    var p := 35 + session;
    var q := p + 2 + ciphers;
    SkipsByte(b, body, 34);
    SkipsWord(b, body, p);
    SkipsByte(b, body, q);
    SkipsTo(body, p, q, |b|, strict);
  }

  lemma ReceivedTail(buf: seq<Byte>, n: nat, r: seq<Byte>, start: nat, exts: seq<Byte>)
    requires Received(buf, n, r) && |r| == start + |exts| <= |buf| && r[start..] == exts
    ensures Holds(buf, n, start, exts)
    ensures |r| <= n ==> Holds(buf, |buf|, start, exts)
  {
    forall i | 0 <= i < |exts|
      ensures HoldsByte(buf, n, start, exts, i) && (|r| <= n ==> HoldsByte(buf, |buf|, start, exts, i))
    {
      assert r[start..][i] == r[start + i];
    }
  }

  /** Only a handshake record that carries a ClientHello yields a name. */
  lemma OnlyFromClientHello(buf: seq<Byte>, n: nat, strict: bool)
    requires n <= |buf| && SniOf(Slice(buf, 0, n), strict).Some?
    ensures n >= 9 && buf[0] == 0x16 && buf[5] == 0x01
  {
  }

  // ---------------------------------------------------------- prefix stability

  ghost predicate Agree(b1: seq<Byte>, b2: seq<Byte>, n: nat) {
    n <= |b1| && n <= |b2| && forall i :: 0 <= i < n ==> b1[i] == b2[i]
  }

  lemma NameStable(b1: seq<Byte>, b2: seq<Byte>, n: nat, at: nat, len: nat, strict: bool)
    requires Agree(b1, b2, n) && at + len <= n && ServerName(Slice(b1, at, len), true).Some?
    ensures ServerName(Slice(b2, at, len), strict) == ServerName(Slice(b1, at, len), true)
  {
    var listLen := Dec16(b1[at], b1[at + 1]);
    var l1, l2 := Slice(b1, at + 2, listLen), Slice(b2, at + 2, listLen);
    assert Slice(b1, at, len).Cut(2, 2 + listLen) == l1 && Slice(b2, at, len).Cut(2, 2 + listLen) == l2;
    var nameLen := Dec16(b1[at + 3], b1[at + 4]);
    assert l1.Word(1) == nameLen == l2.Word(1);
    assert l1.Cut(3, 3 + nameLen).Bytes() == l2.Cut(3, 3 + nameLen).Bytes();
  }

  lemma WalkIsInside(buf: seq<Byte>, at: nat, len: nat)
    requires at + len <= |buf| && WalkExtensions(Slice(buf, at, len), true).Some?
    ensures 4 <= len && 4 + Dec16(buf[at + 2], buf[at + 3]) <= len
  {
    assert 4 <= len;
    assert Slice(buf, at, len).Word(2) == Dec16(buf[at + 2], buf[at + 3]);
  }

  lemma SameHeader(b1: seq<Byte>, b2: seq<Byte>, at: nat, n: nat)
    requires Agree(b1, b2, n) && at + 4 <= n
    ensures Dec16(b1[at], b1[at + 1]) == Dec16(b2[at], b2[at + 1])
    ensures Dec16(b1[at + 2], b1[at + 3]) == Dec16(b2[at + 2], b2[at + 3])
  {
  }

  lemma NameWalk(b1: seq<Byte>, b2: seq<Byte>, at: nat, len: nat, strict: bool) returns (start: nat, size: nat)
    requires Agree(b1, b2, at + len) && 4 <= len && 4 + Dec16(b1[at + 2], b1[at + 3]) <= len
      && Dec16(b1[at], b1[at + 1]) == 0
    ensures start + size <= at + len
    ensures WalkExtensions(Slice(b1, at, len), true) == ServerName(Slice(b1, start, size), true)
    ensures WalkExtensions(Slice(b2, at, len), strict) == ServerName(Slice(b2, start, size), strict)
  {
    start, size := at + 4, Dec16(b1[at + 2], b1[at + 3]);
    SameHeader(b1, b2, at, at + len);
    StepInto(b1, at, len, size, true);
    StepInto(b2, at, len, size, strict);
  }

  lemma OtherWalk(b1: seq<Byte>, b2: seq<Byte>, at: nat, len: nat, strict: bool) returns (start: nat, rest: nat)
    requires Agree(b1, b2, at + len) && 4 <= len && 4 + Dec16(b1[at + 2], b1[at + 3]) <= len
      && Dec16(b1[at], b1[at + 1]) != 0
    ensures start + rest == at + len && rest < len
    ensures WalkExtensions(Slice(b1, at, len), true) == WalkExtensions(Slice(b1, start, rest), true)
    ensures WalkExtensions(Slice(b2, at, len), strict) == WalkExtensions(Slice(b2, start, rest), strict)
  {
    var size := Dec16(b1[at + 2], b1[at + 3]);
    start, rest := at + 4 + size, len - 4 - size;
    SameHeader(b1, b2, at, at + len);
    StepPast(b1, at, len, size, start, rest, true);
    StepPast(b2, at, len, size, start, rest, strict);
  }

  lemma {:induction false} WalkStable(b1: seq<Byte>, b2: seq<Byte>, at: nat, len: nat, strict: bool)
    requires Agree(b1, b2, at + len) && WalkExtensions(Slice(b1, at, len), true).Some?
    ensures WalkExtensions(Slice(b2, at, len), strict) == WalkExtensions(Slice(b1, at, len), true)
    decreases len
  {
    WalkIsInside(b1, at, len);
    if Dec16(b1[at], b1[at + 1]) == 0 {
      var start, size := NameWalk(b1, b2, at, len, strict);
      NameStable(b1, b2, at + len, start, size, strict);
    } else {
      var start, rest := OtherWalk(b1, b2, at, len, strict);
      WalkStable(b1, b2, start, rest, strict);
    }
  }

  lemma BlockStable(s1: Slice, s2: Slice, strict: bool)
    requires s1.Valid() && s2.Valid() && s1.off == s2.off && s1.len <= s2.len && Agree(s1.buf, s2.buf, s1.off + s1.len)
    requires Extensions(s1, true).Some?
    ensures var block := Extensions(s1, true).value;
      Extensions(s2, strict) == Some(Slice(s2.buf, block.off, block.len)) && block.off + block.len <= s1.off + s1.len
  {
    FieldsStable(s1, s2);
    var p := ExtensionsAt(s1).value;
    assert s1.Word(p) == s2.Word(p);
  }

  lemma FieldsStable(s1: Slice, s2: Slice)
    requires s1.Valid() && s2.Valid() && s1.off == s2.off && s1.len <= s2.len && Agree(s1.buf, s2.buf, s1.off + s1.len)
    requires ExtensionsAt(s1).Some?
    ensures ExtensionsAt(s2) == ExtensionsAt(s1)
  {
    SkipsStable(s1, s2, 34);
    var p := Skip8(s1, 34).value;
    SkipsStable(s1, s2, p);
    SkipsStable(s1, s2, Skip16(s1, p).value);
  }

  lemma SkipsStable(s1: Slice, s2: Slice, p: nat)
    requires s1.Valid() && s2.Valid() && s1.off == s2.off && s1.len <= s2.len && Agree(s1.buf, s2.buf, s1.off + s1.len)
    ensures Skip8(s1, p).Some? ==> Skip8(s2, p) == Skip8(s1, p)
    ensures Skip16(s1, p).Some? ==> Skip16(s2, p) == Skip16(s1, p)
  {
  }

  lemma BodyStable(b1: seq<Byte>, n1: nat, b2: seq<Byte>, n2: nat)
    requires n1 <= n2 <= |b2| && Agree(b1, b2, n1) && HelloBody(Slice(b1, 0, n1)).Some?
    ensures HelloBody(Slice(b2, 0, n2)).Some?
    ensures var s1, s2 := HelloBody(Slice(b1, 0, n1)).value, HelloBody(Slice(b2, 0, n2)).value;
      s1.buf == b1 && s2.buf == b2 && s1.off == s2.off && s1.len <= s2.len && s1.off + s1.len <= n1
  {
    assert Slice(b1, 0, n1).Word(3) == Slice(b2, 0, n2).Word(3);
  }

  /**
   Prefix stability: when a name is found without any declared length leaving the block it
   sits in or the bytes received, every longer stream and every buffer that starts with those
   bytes gives the same name, with length-bounded and with Go's slicing alike. With equal
   lengths this is independence from what the buffer holds past the received bytes.
   */
  lemma StableWhenContained(b1: seq<Byte>, n1: nat, b2: seq<Byte>, n2: nat, strict: bool)
    requires n1 <= n2 <= |b2| && Agree(b1, b2, n1) && SniOf(Slice(b1, 0, n1), true).Some?
    ensures SniOf(Slice(b2, 0, n2), strict) == SniOf(Slice(b1, 0, n1), true)
  {
    BodyStable(b1, n1, b2, n2);
    var s1, s2 := HelloBody(Slice(b1, 0, n1)).value, HelloBody(Slice(b2, 0, n2)).value;
    ViaBody(Slice(b1, 0, n1), s1, true);
    ViaBody(Slice(b2, 0, n2), s2, strict);
    BlockStable(s1, s2, strict);
    var block := Extensions(s1, true).value;
    WalkStable(b1, b2, block.off, block.len, strict);
  }

  // ------------------------------------------------------------- containment

  /** A server_name extension from at to end whose list, and its first name, stay inside what encloses them. */
  predicate NameInside(buf: seq<Byte>, at: nat, end: nat)
    requires end <= |buf|
  {
    && at + 5 <= end
    && var listEnd := at + 2 + Dec16(buf[at], buf[at + 1]);
       listEnd <= end && at + 5 + Dec16(buf[at + 3], buf[at + 4]) <= listEnd
  }

  /** Extensions from at to end that stay inside, one by one, up to a server_name that does. */
  predicate WalkInside(buf: seq<Byte>, at: nat, end: nat)
    requires end <= |buf|
    decreases end - at
  {
    && at + 4 <= end
    && var next := at + 4 + Dec16(buf[at + 2], buf[at + 3]);
       && next <= end
       && if Dec16(buf[at], buf[at + 1]) == 0 then NameInside(buf, at + 4, next) else WalkInside(buf, next, end)
  }

  /** Every length on the way to the name keeps what it measures inside its enclosing block and the bytes of data. */
  predicate Contained(data: Slice)
    requires data.Valid()
  {
    match HelloBody(data)
    case None => false
    case Some(body) =>
      match ExtensionsAt(body)
      case None => false
      case Some(p) =>
        && p + 2 <= body.len && p + 2 + body.Word(p) <= body.len
        && WalkInside(body.buf, body.off + p + 2, body.off + p + 2 + body.Word(p))
  }

  /** Of a name that Go's slicing finds, length-bounded slicing finds it if and only if it stays inside. */
  lemma NameInsideIff(buf: seq<Byte>, at: nat, len: nat)
    requires at + len <= |buf| && ServerName(Slice(buf, at, len), false).Some?
    ensures ServerName(Slice(buf, at, len), true).Some? <==> NameInside(buf, at, at + len)
  {
    assert 2 <= len && Slice(buf, at, len).Word(0) == Dec16(buf[at], buf[at + 1]);
    if 2 + Dec16(buf[at], buf[at + 1]) <= len {
      NameStep(buf, at, len, false);
      NameStep(buf, at, len, true);
    }
  }

  lemma {:induction false} WalkInsideIff(buf: seq<Byte>, at: nat, len: nat, end: nat)
    requires at + len == end <= |buf| && WalkExtensions(Slice(buf, at, len), false).Some?
    ensures WalkExtensions(Slice(buf, at, len), true).Some? <==> WalkInside(buf, at, end)
    decreases len
  {
    var size := LongEnough(buf, at, len);
    if len < 4 + size {
      WalkLeaves(buf, at, len, size);
    } else if Dec16(buf[at], buf[at + 1]) == 0 {
      StepInto(buf, at, len, size, false);
      StepInto(buf, at, len, size, true);
      NameInsideIff(buf, at + 4, size);
    } else {
      var start, rest := at + 4 + size, len - 4 - size;
      BothStepPast(buf, at, len, size, start, rest);
      WalkInsideIff(buf, start, rest, end);
      InsidePast(buf, at, end, start);
    }
  }

  lemma BothStepPast(buf: seq<Byte>, at: nat, len: nat, size: nat, start: nat, rest: nat)
    requires at + len <= |buf| && 4 + size <= len && start == at + 4 + size && rest == len - 4 - size
    requires Dec16(buf[at], buf[at + 1]) != 0 && Dec16(buf[at + 2], buf[at + 3]) == size
    ensures WalkExtensions(Slice(buf, at, len), false) == WalkExtensions(Slice(buf, start, rest), false)
    ensures WalkExtensions(Slice(buf, at, len), true) == WalkExtensions(Slice(buf, start, rest), true)
  {
    StepPast(buf, at, len, size, start, rest, false);
    StepPast(buf, at, len, size, start, rest, true);
  }

  lemma InsidePast(buf: seq<Byte>, at: nat, end: nat, next: nat)
    requires at + 4 <= next <= end <= |buf| && next == at + 4 + Dec16(buf[at + 2], buf[at + 3])
    requires Dec16(buf[at], buf[at + 1]) != 0
    ensures WalkInside(buf, at, end) == WalkInside(buf, next, end)
  {
  }

  lemma LongEnough(buf: seq<Byte>, at: nat, len: nat) returns (size: nat)
    requires at + len <= |buf| && WalkExtensions(Slice(buf, at, len), false).Some?
    ensures 4 <= len && size == Dec16(buf[at + 2], buf[at + 3])
  {
    assert 4 <= len;
    size := Dec16(buf[at + 2], buf[at + 3]);
  }

  /** An extension that leaves its block ends a walk with length-bounded slicing. */
  lemma WalkLeaves(buf: seq<Byte>, at: nat, len: nat, size: nat)
    requires at + len <= |buf| && 4 <= len && size == Dec16(buf[at + 2], buf[at + 3]) && len < 4 + size
    ensures WalkExtensions(Slice(buf, at, len), true) == None && !WalkInside(buf, at, at + len)
  {
    assert Slice(buf, at, len).Word(2) == size;
  }

  /** Of extensions that Go's slicing finds a name in, length-bounded slicing does if and only if they are inside. */
  lemma BlockInsideIff(body: Slice, p: nat)
    requires body.Valid() && p + 2 <= body.len && BlockAt(body, p, false).Some?
    requires WalkExtensions(BlockAt(body, p, false).value, false).Some?
    ensures var end := body.off + p + 2 + body.Word(p);
      (p + 2 + body.Word(p) <= body.len && WalkInside(body.buf, body.off + p + 2, end)) <==>
      (BlockAt(body, p, true).Some? && WalkExtensions(BlockAt(body, p, true).value, true).Some?)
  {
    var block := BlockAt(body, p, false).value;
    assert block == Slice(body.buf, body.off + p + 2, body.Word(p));
    WalkInsideIff(body.buf, body.off + p + 2, body.Word(p), body.off + p + 2 + body.Word(p));
  }

  /** parseSNI's stages, once the body and the length field of its extensions are found. */
  lemma ByStages(data: Slice, body: Slice, p: nat, strict: bool)
    requires data.Valid() && HelloBody(data) == Some(body) && body.Valid() && ExtensionsAt(body) == Some(p)
    ensures SniOf(data, strict) ==
      match BlockAt(body, p, strict) case None => None case Some(block) => WalkExtensions(block, strict)
  {
  }

  lemma ContainedByStages(data: Slice, body: Slice, p: nat)
    requires data.Valid() && HelloBody(data) == Some(body) && body.Valid() && ExtensionsAt(body) == Some(p)
    requires p + 2 <= body.len
    ensures Contained(data) <==>
      p + 2 + body.Word(p) <= body.len && WalkInside(body.buf, body.off + p + 2, body.off + p + 2 + body.Word(p))
  {
  }

  lemma HasStages(data: Slice) returns (body: Slice, p: nat)
    requires data.Valid() && SniOf(data, false).Some?
    ensures HelloBody(data) == Some(body) && body.Valid() && ExtensionsAt(body) == Some(p)
  {
    body := HelloBody(data).value;
    p := ExtensionsAt(body).value;
  }

  lemma ContainedIffStrict(data: Slice)
    requires data.Valid() && SniOf(data, false).Some?
    ensures Contained(data) <==> SniOf(data, true).Some?
  {
    var body, p := HasStages(data);
    ByStages(data, body, p, false);
    ByStages(data, body, p, true);
    ContainedByStages(data, body, p);
    BlockInsideIff(body, p);
  }

  /**
   When the documentation holds, for any bytes whatever in the front of any buffer: Go's parser
   does what it would do if every slice beyond the bytes received, or beyond its block, failed,
   if and only if it fails or every length it follows stays inside.
   */
  lemma SlicingsAgreeIff(buf: seq<Byte>, n: nat)
    requires n <= |buf|
    ensures SniOf(Slice(buf, 0, n), false) == SniOf(Slice(buf, 0, n), true)
      <==> SniOf(Slice(buf, 0, n), false) == None || Contained(Slice(buf, 0, n))
  {
    var data := Slice(buf, 0, n);
    if SniOf(data, true).Some? {
      StableWhenContained(buf, n, buf, n, false);
    }
    if SniOf(data, false).Some? {
      ContainedIffStrict(data);
    }
  }

  // ------------------------------------------------------- truncated ClientHellos

  /** Where the first name of the first server_name extension starts in the encoded extensions. */
  function NameOffset(es: seq<Extension>): nat
    requires AllEncodable(es)
  {
    if es == [] || es[0].ServerNames? then 9 else 4 + DataSize(es[0]) + NameOffset(es[1..])
  }

  /** The buffer is zeroed and only its first n bytes have been received into it. */
  ghost predicate ZeroAfter(buf: seq<Byte>, n: nat) {
    n <= |buf| && forall i :: n <= i < |buf| ==> IsNul(buf, i)
  }

  predicate IsNul(buf: seq<Byte>, i: nat)
    requires i < |buf|
  {
    buf[i] == 0
  }

  /** found is name, read from start in a zeroed buffer with n bytes in it: bytes not received come out as NULs. */
  ghost predicate Padded(found: Option<seq<Byte>>, name: seq<Byte>, start: nat, n: nat) {
    && found.Some? && |found.value| == |name|
    && forall i :: 0 <= i < |name| ==> found.value[i] == if start + i < n then name[i] else 0
  }

  predicate NulFree(name: seq<Byte>) {
    name != [] && forall i :: 0 <= i < |name| ==> name[i] != 0
  }

  ghost predicate OnlyNuls(s: seq<Byte>) {
    forall i :: 0 <= i < |s| ==> s[i] == 0
  }

  /**
   Whether n received bytes let Go's parser succeed on extensions that start at start: the name
   list's length must have been received, or its high byte if that is enough to make the list
   longer than the header of a name; and the first entry must be a host_name, or its kind, which
   then reads as 0, not have been received.
   */
  predicate NameFound(es: seq<Extension>, start: nat, n: nat)
    requires AllEncodable(es)
  {
    var name := start + NameOffset(es);
    match FirstNames(es)
    case None => false
    case Some(entries) =>
      && entries != []
      && (n + 3 >= name || (n + 4 == name && NameListSize(entries) >= 256))
      && (entries[0].kind == 0 || n + 3 <= name)
  }

  /** What is then found: the leading host_name as far as it was received, and otherwise nothing but NULs. */
  ghost predicate NameSoFar(found: seq<Byte>, es: seq<Extension>, start: nat, n: nat)
    requires AllEncodable(es)
  {
    match LeadingHost(es)
    case None => found == []
    case Some(name) =>
      if start + NameOffset(es) <= n then Padded(Some(found), name, start + NameOffset(es), n) else OnlyNuls(found)
  }

  ghost predicate FoundUpTo(found: Option<seq<Byte>>, es: seq<Extension>, start: nat, n: nat)
    requires AllEncodable(es)
  {
    (found.Some? <==> NameFound(es, start, n)) && (found.Some? ==> NameSoFar(found.value, es, start, n))
  }

  /** A walk that starts where no extension's data has been received finds nothing. */
  lemma {:induction false} WalkOverZeros(buf: seq<Byte>, n: nat, at: nat, len: nat)
    requires at + len <= |buf| && ZeroAfter(buf, n) && n <= at + 4
    ensures WalkExtensions(Slice(buf, at, len), false) == None
    decreases len
  {
    var exts := Slice(buf, at, len);
    if len >= 4 && exts.CanCut(4, 4 + exts.Word(2), false) {
      var size := exts.Word(2);
      if exts.Word(0) == 0 {
        NameOverZeros(exts.Cut(4, 4 + size), n);
      } else if 4 + size <= len {
        WalkOverZeros(buf, n, at + 4 + size, len - 4 - size);
        assert exts.From(4 + size) == Slice(buf, at + 4 + size, len - 4 - size);
        assert WalkExtensions(exts, false) == WalkExtensions(exts.From(4 + size), false);
      }
    }
  }

  lemma NameOverZeros(ext: Slice, n: nat)
    requires ext.Valid() && ZeroAfter(ext.buf, n) && n <= ext.off
    ensures ServerName(ext, false) == None
  {
    if ext.len >= 2 {
      assert IsNul(ext.buf, ext.off) && IsNul(ext.buf, ext.off + 1);
      assert ext.Word(0) == 0;
    }
  }

  /** The byte of s at i, or 0 if it has not been received. */
  function ReceivedByte(s: seq<Byte>, at: nat, n: nat, i: nat): Byte
    requires i < |s|
  {
    if at + i < n then s[i] else 0
  }

  lemma UpToByte(buf: seq<Byte>, n: nat, at: nat, s: seq<Byte>, i: nat)
    requires Holds(buf, n, at, s) && ZeroAfter(buf, n) && i < |s|
    ensures buf[at + i] == ReceivedByte(s, at, n, i)
  {
    assert HoldsByte(buf, n, at, s, i) && (n <= at + i ==> IsNul(buf, at + i));
  }

  /** A number at at whose low byte, or both, may not have been received. */
  predicate PartialOf(read: nat, value: nat, at: nat, n: nat) {
    && read <= value
    && (n >= at + 2 ==> read == value) && (n <= at ==> read == 0)
    && (n == at + 1 ==> if value >= 256 then read >= 256 else read == 0)
  }

  lemma UpToWord(buf: seq<Byte>, n: nat, at: nat, word: seq<Byte>, value: nat) returns (read: nat)
    requires Holds(buf, n, at, word) && ZeroAfter(buf, n) && |word| == 2 && Dec16(word[0], word[1]) == value
    ensures Dec16(buf[at], buf[at + 1]) == read && PartialOf(read, value, at, n)
  {
    UpToByte(buf, n, at, word, 0);
    UpToByte(buf, n, at, word, 1);
    read := Dec16(buf[at], buf[at + 1]);
  }

  /** The five bytes before a first name, as far as they have been received. */
  lemma UpToNameHeader(buf: seq<Byte>, n: nat, at: nat, size: nat, kind: Byte, name: seq<Byte>, rest: seq<Byte>)
    returns (listLen: nat, nameLen: nat)
    requires size < 0x1_0000 && |name| < 0x1_0000 && ZeroAfter(buf, n)
    requires Holds(buf, n, at, Enc16(size) + ([kind] + (Enc16(|name|) + (name + rest))))
    ensures (at + 2 < n ==> buf[at + 2] == kind) && (n <= at + 2 ==> buf[at + 2] == 0)
    ensures Dec16(buf[at], buf[at + 1]) == listLen && PartialOf(listLen, size, at, n)
    ensures Dec16(buf[at + 3], buf[at + 4]) == nameLen && PartialOf(nameLen, |name|, at + 3, n)
    ensures Holds(buf, n, at + 5, name)
  {
    HoldsParts(buf, n, at, Enc16(size), [kind] + (Enc16(|name|) + (name + rest)));
    HoldsParts(buf, n, at + 2, [kind], Enc16(|name|) + (name + rest));
    HoldsParts(buf, n, at + 3, Enc16(|name|), name + rest);
    HoldsParts(buf, n, at + 5, name, rest);
    listLen := UpToWord(buf, n, at, Enc16(size), size);
    UpToByte(buf, n, at + 2, [kind], 0);
    nameLen := UpToWord(buf, n, at + 3, Enc16(|name|), |name|);
  }

  /** Whether the name list at at is long enough, as far as its length has been received, to hold a name. */
  predicate ListUpTo(entries: seq<NameEntry>, at: nat, n: nat) {
    && entries != []
    && (n >= at + 2 || (n == at + 1 && NameListSize(entries) >= 256)) && (entries[0].kind == 0 || n <= at + 2)
  }

  /** An extension's name list, by position, in n received bytes. */
  ghost predicate NameUpTo(found: Option<seq<Byte>>, entries: seq<NameEntry>, at: nat, n: nat) {
    && (found.Some? <==> ListUpTo(entries, at, n))
    && (found.Some? ==>
          if entries[0].kind != 0 then found.value == []
          else if at + 5 <= n then Padded(found, entries[0].name, at + 5, n)
          else OnlyNuls(found.value))
  }

  lemma NoList(buf: seq<Byte>, at: nat)
    requires at + 2 <= |buf| && buf[at] == 0 && buf[at + 1] == 0
    ensures ServerName(Slice(buf, at, 2), false) == None
  {
    NameStep(buf, at, 2, false);
  }

  lemma EmptyListUpTo(buf: seq<Byte>, n: nat, at: nat, zeros: seq<Byte>)
    requires Holds(buf, n, at, zeros) && ZeroAfter(buf, n) && |zeros| == 2 && zeros[0] == 0 && zeros[1] == 0
    ensures ServerName(Slice(buf, at, 2), false) == None
  {
    UpToByte(buf, n, at, zeros, 0);
    UpToByte(buf, n, at, zeros, 1);
    NoList(buf, at);
  }

  lemma NulsAfter(buf: seq<Byte>, n: nat, from: nat, to: nat)
    requires ZeroAfter(buf, n) && n <= from <= to <= |buf|
    ensures OnlyNuls(buf[from..to])
  {
    forall i | 0 <= i < to - from ensures buf[from..to][i] == 0 {
      assert IsNul(buf, from + i);
    }
  }

  /** found, read from a name list of the given size whose header holds kind and nameSize, n bytes received. */
  ghost predicate HeaderRead(found: Option<seq<Byte>>, buf: seq<Byte>, n: nat, at: nat, size: nat, kind: Byte,
                             nameSize: nat)
  {
    && (found.Some? <==> (n >= at + 2 || (n == at + 1 && size >= 256)) && (kind == 0 || n <= at + 2))
    && (found.Some? ==>
          && (at + 5 <= n ==> at + 5 + nameSize <= |buf| && found.value == buf[at + 5..at + 5 + nameSize])
          && (n < at + 5 ==> OnlyNuls(found.value))
          && (kind != 0 ==> found.value == []))
  }

  /** What is read of a header's list length, kind and name length. */
  lemma HeaderNumbers(n: nat, at: nat, size: nat, kind: Byte, nameSize: nat, listLen: nat, kindRead: Byte, nameLen: nat)
    requires 3 + nameSize <= size && kindRead == (if at + 2 < n then kind else 0)
    requires PartialOf(listLen, size, at, n) && PartialOf(nameLen, nameSize, at + 3, n)
    ensures listLen >= 3 && kindRead == 0 <==>
      (n >= at + 2 || (n == at + 1 && size >= 256)) && (kind == 0 || n <= at + 2)
    ensures at + 5 <= n ==> nameLen == nameSize
    ensures nameLen <= nameSize && (n <= at + 2 ==> nameLen == 0)
  {
  }

  /** found is the name of length nameLen in a list of length listLen whose length field is at at. */
  ghost predicate ReadsAs(found: Option<seq<Byte>>, buf: seq<Byte>, at: nat, listLen: nat, nameLen: nat) {
    && at + 5 + nameLen <= |buf|
    && found == if listLen < 3 || buf[at + 2] != 0 then None else Some(buf[at + 5..at + 5 + nameLen])
  }

  lemma HeaderFacts(found: Option<seq<Byte>>, buf: seq<Byte>, n: nat, at: nat, size: nat, kind: Byte, nameSize: nat,
                                      listLen: nat, nameLen: nat)
    requires 3 + nameSize <= size && at + 2 + size <= |buf| && ZeroAfter(buf, n)
    requires (at + 2 < n ==> buf[at + 2] == kind) && (n <= at + 2 ==> buf[at + 2] == 0)
    requires PartialOf(listLen, size, at, n) && PartialOf(nameLen, nameSize, at + 3, n)
    requires ReadsAs(found, buf, at, listLen, nameLen)
    ensures HeaderRead(found, buf, n, at, size, kind, nameSize)
  {
    HeaderNumbers(n, at, size, kind, nameSize, listLen, buf[at + 2], nameLen);
    if n < at + 5 {
      NulsAfter(buf, n, at + 5, at + 5 + nameLen);
    }
  }

  lemma ReadName(buf: seq<Byte>, at: nat, size: nat, listLen: nat, nameLen: nat)
    requires at + 2 + size <= |buf| && at + 5 + nameLen <= |buf|
    requires Dec16(buf[at], buf[at + 1]) == listLen <= size && Dec16(buf[at + 3], buf[at + 4]) == nameLen
    ensures ReadsAs(ServerName(Slice(buf, at, 2 + size), false), buf, at, listLen, nameLen)
  {
    NameStep(buf, at, 2 + size, false);
  }

  /** What ServerName makes of a name list of the given size that holds at least a name's header. */
  lemma HeaderUpTo(buf: seq<Byte>, n: nat, at: nat, size: nat, kind: Byte, nameSize: nat, listLen: nat, nameLen: nat)
    requires 3 + nameSize <= size < 0x1_0000 && at + 2 + size <= |buf| && ZeroAfter(buf, n)
    requires (at + 2 < n ==> buf[at + 2] == kind) && (n <= at + 2 ==> buf[at + 2] == 0)
    requires Dec16(buf[at], buf[at + 1]) == listLen && PartialOf(listLen, size, at, n)
    requires Dec16(buf[at + 3], buf[at + 4]) == nameLen && PartialOf(nameLen, nameSize, at + 3, n)
    ensures HeaderRead(ServerName(Slice(buf, at, 2 + size), false), buf, n, at, size, kind, nameSize)
  {
    ReadName(buf, at, size, listLen, nameLen);
    HeaderFacts(ServerName(Slice(buf, at, 2 + size), false), buf, n, at, size, kind, nameSize, listLen, nameLen);
  }

  lemma NamesUpTo(buf: seq<Byte>, n: nat, at: nat, entries: seq<NameEntry>)
    requires 2 + NameListSize(entries) < 0x1_0000 && Holds(buf, n, at, Vec16(NameList(entries))) && ZeroAfter(buf, n)
    ensures NameUpTo(ServerName(Slice(buf, at, 2 + NameListSize(entries)), false), entries, at, n)
  {
    if entries == [] {
      EmptyListUpTo(buf, n, at, Vec16(NameList(entries)));
    } else {
      var kind, name, rest := entries[0].kind, entries[0].name, NameList(entries[1..]);
      NameListParts(entries);
      var listLen, nameLen := UpToNameHeader(buf, n, at, NameListSize(entries), kind, name, rest);
      HeaderUpTo(buf, n, at, NameListSize(entries), kind, |name|, listLen, nameLen);
      NamesRead(ServerName(Slice(buf, at, 2 + NameListSize(entries)), false), entries, buf, n, at);
    }
  }

  lemma NamesRead(found: Option<seq<Byte>>, entries: seq<NameEntry>, buf: seq<Byte>, n: nat, at: nat)
    requires entries != [] && ZeroAfter(buf, n) && Holds(buf, n, at + 5, entries[0].name)
    requires HeaderRead(found, buf, n, at, NameListSize(entries), entries[0].kind, |entries[0].name|)
    ensures NameUpTo(found, entries, at, n)
  {
    if at + 5 <= n {
      PaddedHere(buf, n, at + 5, entries[0].name);
    }
  }

  lemma PaddedHere(buf: seq<Byte>, n: nat, at: nat, name: seq<Byte>)
    requires Holds(buf, n, at, name) && ZeroAfter(buf, n)
    ensures Padded(Some(buf[at..at + |name|]), name, at, n)
  {
    forall i | 0 <= i < |name| ensures buf[at..at + |name|][i] == if at + i < n then name[i] else 0 {
      UpToByte(buf, n, at, name, i);
    }
  }

  /** A walk whose first header has not been received. */
  lemma WalkTooEarly(es: seq<Extension>, buf: seq<Byte>, n: nat, at: nat)
    requires AllEncodable(es) && at + |Encode(es)| <= |buf| && ZeroAfter(buf, n) && n < at + 4
    ensures FoundUpTo(WalkExtensions(Slice(buf, at, |Encode(es)|), false), es, at, n)
  {
    WalkOverZeros(buf, n, at, |Encode(es)|);
    NameOffsetMin(es);
  }

  lemma NothingToWalk(es: seq<Extension>, buf: seq<Byte>, n: nat, at: nat)
    requires es == [] && at <= |buf|
    ensures FoundUpTo(WalkExtensions(Slice(buf, at, |Encode(es)|), false), es, at, n)
  {
  }

  lemma WalkToNames(es: seq<Extension>, buf: seq<Byte>, n: nat, at: nat)
    requires AllEncodable(es) && es != [] && at + 4 <= n && es[0].ServerNames?
    requires Holds(buf, n, at, Encode(es)) && ZeroAfter(buf, n)
    ensures NameUpTo(WalkExtensions(Slice(buf, at, |Encode(es)|), false), es[0].entries, at + 4, n)
  {
    HoldsExtension(buf, n, at, es);
    StepInto(buf, at, |Encode(es)|, DataSize(es[0]), false);
    NamesUpTo(buf, n, at + 4, es[0].entries);
  }

  lemma NamesFirst(es: seq<Extension>, at: nat, n: nat, found: Option<seq<Byte>>)
    requires AllEncodable(es) && es != [] && es[0].ServerNames? && NameUpTo(found, es[0].entries, at + 4, n)
    ensures FoundUpTo(found, es, at, n)
  {
    assert NameOffset(es) == 9 && FirstNames(es) == Some(es[0].entries);
  }

  lemma OtherSkipped(es: seq<Extension>, at: nat, n: nat, found: Option<seq<Byte>>)
    requires AllEncodable(es) && es != [] && es[0].OtherExtension?
      && FoundUpTo(found, es[1..], at + 4 + DataSize(es[0]), n)
    ensures FoundUpTo(found, es, at, n)
  {
    assert LeadingHost(es) == LeadingHost(es[1..]) && FirstNames(es) == FirstNames(es[1..]);
    assert at + NameOffset(es) == at + 4 + DataSize(es[0]) + NameOffset(es[1..]);
  }

  lemma {:induction false} WalkUpTo(es: seq<Extension>, buf: seq<Byte>, n: nat, at: nat)
    requires AllEncodable(es) && Holds(buf, n, at, Encode(es)) && ZeroAfter(buf, n)
    ensures FoundUpTo(WalkExtensions(Slice(buf, at, |Encode(es)|), false), es, at, n)
    decreases |es|, 1
  {
    if n < at + 4 {
      WalkTooEarly(es, buf, n, at);
    } else if es == [] {
      NothingToWalk(es, buf, n, at);
    } else if es[0].ServerNames? {
      WalkToNames(es, buf, n, at);
      NamesFirst(es, at, n, WalkExtensions(Slice(buf, at, |Encode(es)|), false));
    } else {
      WalkOnFromOther(es, buf, n, at);
    }
  }

  lemma {:induction false} WalkOnFromOther(es: seq<Extension>, buf: seq<Byte>, n: nat, at: nat)
    requires AllEncodable(es) && es != [] && at + 4 <= n && es[0].OtherExtension?
    requires Holds(buf, n, at, Encode(es)) && ZeroAfter(buf, n)
    ensures FoundUpTo(WalkExtensions(Slice(buf, at, |Encode(es)|), false), es, at, n)
    decreases |es|, 0
  {
    var next := at + 4 + DataSize(es[0]);
    WalkPastOther(es, buf, n, at, false);
    WalkUpTo(es[1..], buf, n, next);
    OtherSkipped(es, at, n, WalkExtensions(Slice(buf, next, |Encode(es[1..])|), false));
  }

  lemma {:induction false} NameOffsetMin(es: seq<Extension>)
    requires AllEncodable(es)
    ensures NameOffset(es) >= 9
  {
    if es != [] {
      NameOffsetMin(es[1..]);
    }
  }

  /**
   What Go's parseSNI makes of the first n bytes of any ClientHello in a zeroed buffer: it
   succeeds exactly if the record would have fitted the buffer and NameFound holds, and then
   returns the name as far as it was received, with NULs for the bytes that were not.
   */
  lemma SniOfTruncated(h: ClientHello, buf: seq<Byte>, n: nat)
    requires WellFormed(h) && Received(buf, n, Record(h)) && ZeroAfter(buf, n)
    ensures var found := SniOf(Slice(buf, 0, n), false);
      && (found.Some? <==> |Record(h)| <= |buf| && NameFound(h.extensions, BlockStart(h), n))
      && (found.Some? ==> NameSoFar(found.value, h.extensions, BlockStart(h), n))
  {
    RecordLocates(h);
    TruncatedIn(Record(h), BlockStart(h), h.extensions, buf, n);
  }

  lemma TruncatedIn(r: seq<Byte>, start: nat, es: seq<Extension>, buf: seq<Byte>, n: nat)
    requires AllEncodable(es) && Locates(r, start, |Encode(es)|) && r[start..] == Encode(es)
    requires Received(buf, n, r) && ZeroAfter(buf, n)
    ensures var found := SniOf(Slice(buf, 0, n), false);
      if |buf| < |r| then found == None else FoundUpTo(found, es, start, n)
  {
    SniInRecord(r, start, |Encode(es)|, buf, n, false);
    NameOffsetMin(es);
    if |r| <= |buf| && start <= n {
      ReceivedTail(buf, n, r, start, Encode(es));
      WalkUpTo(es, buf, n, start);
    }
  }

  /**
   When the documentation holds: Go's parser does what it would do if every slice beyond the
   bytes received failed, if and only if all of the record has been received, or it would not
   have fitted the buffer, or too little of the name's header has been received to go on.
   */
  lemma DocumentedIff(h: ClientHello, buf: seq<Byte>, n: nat)
    requires WellFormed(h) && Received(buf, n, Record(h)) && ZeroAfter(buf, n)
    ensures SniOf(Slice(buf, 0, n), false) == SniOf(Slice(buf, 0, n), true)
      <==> |Record(h)| <= n || |buf| < |Record(h)| || !NameFound(h.extensions, BlockStart(h), n)
    ensures n < |Record(h)| ==> SniOf(Slice(buf, 0, n), true) == None
  {
    if |Record(h)| <= n {
      SniOfEncoded(h, buf, n, false);
      SniOfEncoded(h, buf, n, true);
    } else {
      SniOfTruncated(h, buf, n);
      RecordLocates(h);
      SniInRecord(Record(h), BlockStart(h), |Encode(h.extensions)|, buf, n, true);
    }
  }

  /**
   When parseSNI returns the right name: for a ClientHello that names a host, which is never
   empty and holds no NUL, it does so from the first n bytes in a zeroed buffer if and only if
   no entry of another kind precedes the name, all of it is among those bytes, and the whole
   record would have fitted the buffer.
   */
  lemma RightNameIff(h: ClientHello, buf: seq<Byte>, n: nat)
    requires WellFormed(h) && HostName(h.extensions).Some? && NulFree(HostName(h.extensions).value)
    requires Received(buf, n, Record(h)) && ZeroAfter(buf, n)
    ensures SniOf(Slice(buf, 0, n), false) == HostName(h.extensions) <==>
      && HostLeads(h.extensions) && |Record(h)| <= |buf|
      && BlockStart(h) + NameOffset(h.extensions) + |HostName(h.extensions).value| <= n
  {
    SniOfTruncated(h, buf, n);
    LeadingIff(h.extensions);
    if HostLeads(h.extensions) {
      LeadingHostIsFirst(h.extensions);
      RightName(HostName(h.extensions).value, BlockStart(h) + NameOffset(h.extensions), n,
        SniOf(Slice(buf, 0, n), false));
    }
  }

  /** A wrong name: one that the ClientHello does not name, or one with bytes of it missing. */
  lemma WrongNameIff(h: ClientHello, buf: seq<Byte>, n: nat)
    requires WellFormed(h) && (HostName(h.extensions).Some? ==> NulFree(HostName(h.extensions).value))
    requires Received(buf, n, Record(h)) && ZeroAfter(buf, n)
    ensures var found := SniOf(Slice(buf, 0, n), false);
      found.Some? && found != HostName(h.extensions) <==>
        && |Record(h)| <= |buf| && NameFound(h.extensions, BlockStart(h), n)
        && (LeadingHost(h.extensions).Some? ==>
              n < BlockStart(h) + NameOffset(h.extensions) + |LeadingHost(h.extensions).value|)
  {
    SniOfTruncated(h, buf, n);
    LeadingIff(h.extensions);
    if LeadingHost(h.extensions).Some? {
      RightNameIff(h, buf, n);
    }
  }

  lemma {:induction false} LeadingHostIsFirst(es: seq<Extension>)
    requires LeadingHost(es).Some?
    ensures FirstNames(es).Some? && FirstNames(es).value != [] && FirstNames(es).value[0].kind == 0
  {
    if !es[0].ServerNames? {
      LeadingHostIsFirst(es[1..]);
    }
  }

  lemma RightName(name: seq<Byte>, start: nat, n: nat, found: Option<seq<Byte>>)
    requires NulFree(name)
    requires found.Some? ==> if start <= n then Padded(found, name, start, n) else OnlyNuls(found.value)
    ensures found == Some(name) ==> start + |name| <= n
    ensures start + |name| <= n ==> found == Some(name) || found == None
  {
    var last := |name| - 1;
    if found.Some? {
      if start <= n {
        assert found.value[last] == if start + last < n then name[last] else 0;
        assert start + |name| <= n ==> found.value == name;
      } else {
        assert last < |found.value| ==> found.value[last] == 0;
      }
    }
  }

  lemma ShortExtensions() returns (es: seq<Extension>)
    ensures AllEncodable(es) && LeadingHost(es) == Some([97, 98]) && NameOffset(es) == 9 && |Encode(es)| == 11
  {
    var names := [NameEntry(0, [97, 98])];
    es := [ServerNames(names)];
    assert NameListSize(names[1..]) == 0 && NameListSize(names) == 5;
    assert |Data(es[0])| == 7 && Encode(es[1..]) == [];
  }

  lemma ShortHello(es: seq<Extension>) returns (h: ClientHello)
    requires AllEncodable(es) && |Encode(es)| < 100
    ensures WellFormed(h) && h.extensions == es && BlockStart(h) == 49
  {
    h := ClientHello([3, 1], seq(34, _ => 0), [], [], [], es);
    BodySize(h);
  }

  lemma BodySize(h: ClientHello)
    requires |h.fixed| == 34 && |h.session| < 256 && |h.ciphers| < 0x1_0000 && |h.compression| < 256
    requires AllEncodable(h.extensions) && |Encode(h.extensions)| < 0x1_0000
    ensures 9 + |Body(h)| == BlockStart(h) + |Encode(h.extensions)|
  {
  }

  /** Of a two-byte name that ends its record, cut off before its last byte, the first byte and a NUL come back. */
  lemma CutOneShort(r: seq<Byte>, start: nat, es: seq<Extension>, buf: seq<Byte>, n: nat)
    requires AllEncodable(es) && Locates(r, start, |Encode(es)|) && r[start..] == Encode(es)
    requires Received(buf, n, r) && ZeroAfter(buf, n) && n + 1 == |r| <= |buf|
    requires LeadingHost(es).Some? && |LeadingHost(es).value| == 2 && start + NameOffset(es) + 2 == |r|
    ensures SniOf(Slice(buf, 0, n), false) == Some([LeadingHost(es).value[0], 0])
  {
    TruncatedIn(r, start, es, buf, n);
    UpToLastByte(SniOf(Slice(buf, 0, n), false), es, start, n);
  }

  lemma UpToLastByte(found: Option<seq<Byte>>, es: seq<Extension>, start: nat, n: nat)
    requires AllEncodable(es) && FoundUpTo(found, es, start, n) && LeadingHost(es).Some? && |LeadingHost(es).value| == 2
    requires start + NameOffset(es) + 1 == n
    ensures found == Some([LeadingHost(es).value[0], 0])
  {
    LeadingHostIsFirst(es);
    LastByteNul(found, LeadingHost(es).value, start + NameOffset(es), n);
  }

  lemma LastByteNul(found: Option<seq<Byte>>, name: seq<Byte>, start: nat, n: nat)
    requires Padded(found, name, start, n) && |name| == 2 && start + 1 == n
    ensures found == Some([name[0], 0])
  {
    assert found.value == [name[0], 0];
  }

  /** A ClientHello for the name "ab" and nothing else, and the length of its record. */
  lemma ExampleHello() returns (h: ClientHello)
    ensures WellFormed(h) && LeadingHost(h.extensions) == Some([97, 98]) && |Record(h)| == 60
    ensures BlockStart(h) + NameOffset(h.extensions) + 2 == |Record(h)|
  {
    var es := ShortExtensions();
    h := ShortHello(es);
    LengthOfRecord(h);
  }

  lemma LengthOfRecord(h: ClientHello)
    requires WellFormed(h)
    ensures |Record(h)| == BlockStart(h) + |Encode(h.extensions)|
  {
    RecordLayout(h);
  }

  lemma MixedExtensions() returns (es: seq<Extension>)
    ensures AllEncodable(es) && LeadingHost(es) == None && HostName(es) == Some([97, 98]) && |Encode(es)| < 100
  {
    var host := [NameEntry(0, [97, 98])];
    var names := [NameEntry(1, [97])] + host;
    es := [ServerNames(names)];
    assert host[1..] == [] && NameListSize(host) == 5;
    assert names[1..] == host && NameListSize(names) == 9;
    assert FirstHostName(host) == Some([97, 98]) && FirstHostName(names) == FirstHostName(host);
    assert FirstNames(es) == Some(names);
    assert |Data(es[0])| == 11 && Encode(es[1..]) == [];
  }

  /** A host_name behind an entry of another kind is missed: here "ab", in a ClientHello received whole. */
  lemma HostNameMissed() returns (h: ClientHello)
    ensures WellFormed(h) && HostName(h.extensions) == Some([97, 98])
    ensures forall buf: seq<Byte>, n: nat, strict: bool :: |Record(h)| <= n && Received(buf, n, Record(h)) ==>
      SniOf(Slice(buf, 0, n), strict) == None
  {
    var es := MixedExtensions();
    h := ShortHello(es);
    forall buf: seq<Byte>, n: nat, strict: bool | |Record(h)| <= n && Received(buf, n, Record(h))
      ensures SniOf(Slice(buf, 0, n), strict) == None
    {
      SniOfEncoded(h, buf, n, strict);
    }
  }
}
