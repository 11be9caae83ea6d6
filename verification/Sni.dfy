/**
 parseSNI: the server_name of a TLS ClientHello, read out of the front of a connection.
 Go slices carry a capacity: s[a:b] is bounded by what the backing array holds, not by
 len(s), so a declared length can take the parser past the bytes that were received.
 */
module Sni {
  import opened Integers
  import opened Text

  function Dec16(hi: Byte, lo: Byte): (n: nat)
    ensures n < 0x1_0000
  {
    (hi as int) * 256 + lo
  }

  // ------------------------------------------------------------------- slices

  /** A Go slice of buf, from off, of length len; its capacity reaches to the end of buf. */
  datatype Slice = Slice(buf: seq<Byte>, off: nat, len: nat) {
    predicate Valid() { off + len <= |buf| }

    function Bytes(): seq<Byte>
      requires Valid()
    {
      buf[off..off + len]
    }

    function At(i: nat): Byte
      requires Valid() && i < len
    {
      buf[off + i]
    }

    /** The big-endian 16-bit number at i. */
    function Word(i: nat): (n: nat)
      requires Valid() && i + 1 < len
      ensures n < 0x1_0000
    {
      Dec16(buf[off + i], buf[off + i + 1])
    }

    /** s[a:] */
    function From(a: nat): Slice
      requires a <= len
    {
      Slice(buf, off + a, len - a)
    }

    /** Whether s[a:b] does not panic: Go's rule, or, if strict, with b bounded by len instead. */
    predicate CanCut(a: nat, b: nat, strict: bool) {
      a <= b && (if strict then b <= len else off + b <= |buf|)
    }

    /** s[a:b] */
    function Cut(a: nat, b: nat): Slice
      requires a <= b && off + b <= |buf|
    {
      Slice(buf, off + a, b - a)
    }
  }

  // ------------------------------------------------------------------- parser

  /** The first name of the server_name extension whose data is ext. */
  function ServerName(ext: Slice, strict: bool): Option<seq<Byte>>
    requires ext.Valid()
  {
    if ext.len < 2 || !ext.CanCut(2, 2 + ext.Word(0), strict) then None
    else
      var list := ext.Cut(2, 2 + ext.Word(0));
      if list.len < 3 || list.At(0) != 0 || !list.CanCut(3, 3 + list.Word(1), strict) then None
      else Some(list.Cut(3, 3 + list.Word(1)).Bytes())
  }

  /** The walk over the extensions; each step drops at least its 4-byte header. */
  function WalkExtensions(exts: Slice, strict: bool): Option<seq<Byte>>
    requires exts.Valid()
    decreases exts.len
  {
    if exts.len < 4 || !exts.CanCut(4, 4 + exts.Word(2), strict) then None
    else if exts.Word(0) == 0 then ServerName(exts.Cut(4, 4 + exts.Word(2)), strict)
    else if exts.len < 4 + exts.Word(2) then None
    else WalkExtensions(exts.From(4 + exts.Word(2)), strict)
  }

  /** Past the one-byte-length vector at p; None if reading its length panics. */
  function Skip8(body: Slice, p: nat): Option<nat>
    requires body.Valid()
  {
    if p < body.len then Some(p + 1 + body.At(p)) else None
  }

  /** Past the two-byte-length vector at p; None if reading its length panics. */
  function Skip16(body: Slice, p: nat): Option<nat>
    requires body.Valid()
  {
    if p + 1 < body.len then Some(p + 2 + body.Word(p)) else None
  }

  /** The two-byte-length block at p. */
  function BlockAt(body: Slice, p: nat, strict: bool): (r: Option<Slice>)
    requires body.Valid()
    ensures r.Some? ==> r.value.Valid() && r.value.buf == body.buf
  {
    if body.len < p + 2 || !body.CanCut(p + 2, p + 2 + body.Word(p), strict) then None
    else Some(body.Cut(p + 2, p + 2 + body.Word(p)))
  }

  /**
   Where a ClientHello body keeps the length of its extensions, after its session id, cipher suites
   and compression methods.
   */
  function ExtensionsAt(body: Slice): Option<nat>
    requires body.Valid()
  {
    match Skip8(body, 34)
    case None => None
    case Some(p) =>
      match Skip16(body, p)
      case None => None
      case Some(q) => Skip8(body, q)
  }

  /** The extensions of a ClientHello body. */
  function Extensions(body: Slice, strict: bool): (r: Option<Slice>)
    requires body.Valid()
    ensures r.Some? ==> r.value.Valid() && r.value.buf == body.buf
  {
    match ExtensionsAt(body)
    case None => None
    case Some(p) => BlockAt(body, p, strict)
  }

  /** The ClientHello body of the handshake record that data starts with. */
  function HelloBody(data: Slice): Option<Slice>
    requires data.Valid()
  {
    if data.len < 5 || data.At(0) != 0x16 then None
    else
      var rest := data.From(5);
      var rec := if rest.len > data.Word(3) then rest.Cut(0, data.Word(3)) else rest;
      if rec.len < 4 || rec.At(0) != 0x01 then None else Some(rec.From(4))
  }

  /** The extensions of the ClientHello that data starts with. */
  function FindExtensions(data: Slice, strict: bool): (r: Option<Slice>)
    requires data.Valid()
    ensures r.Some? ==> r.value.Valid()
  {
    match HelloBody(data)
    case None => None
    case Some(body) => Extensions(body, strict)
  }

  /** parseSNI; None is ok = false. strict is a parser with length-bounded slicing instead of Go's. */
  function SniOf(data: Slice, strict: bool): Option<seq<Byte>>
    requires data.Valid()
  {
    match FindExtensions(data, strict)
    case None => None
    case Some(exts) => WalkExtensions(exts, strict)
  }

  /** parseSNI's reading of one server_name extension; None is a panic or ok = false. */
  method ReadServerName(extData: Slice) returns (name: Option<seq<Byte>>)
    requires extData.Valid()
    ensures name == ServerName(extData, false)
  {
    if extData.len < 2 {
      return None;
    }
    var listLen := extData.Word(0);
    if !extData.CanCut(2, 2 + listLen, false) { return None; }
    var list := extData.Cut(2, 2 + listLen);
    if list.len >= 3 && list.At(0) == 0 {
      var nameLen := list.Word(1);
      if !list.CanCut(3, 3 + nameLen, false) { return None; }
      return Some(list.Cut(3, 3 + nameLen).Bytes());
    }
    return None;
  }

  /** parseSNI's skipping of the fields before the extensions, its index p moving over them; None is a panic. */
  method SkipFields(body: Slice) returns (at: Option<nat>)
    requires body.Valid()
    ensures at == ExtensionsAt(body)
  {
    var p := 2 + 32;
    if p >= body.len { return None; }
    p := p + 1 + body.At(p);
    if p + 1 >= body.len { return None; }
    p := p + 2 + body.Word(p);
    if p >= body.len { return None; }
    p := p + 1 + body.At(p);
    return Some(p);
  }

  /** parseSNI's slicing of the extensions' block. */
  method SkipToExtensions(body: Slice) returns (exts: Option<Slice>)
    requires body.Valid()
    ensures exts == Extensions(body, false)
  {
    var at := SkipFields(body);
    if at.None? { return None; }
    var p := at.value;
    if p + 2 > body.len {
      return None;
    }
    var extLen := body.Word(p);
    p := p + 2;
    if !body.CanCut(p, p + extLen, false) { return None; }
    return Some(body.Cut(p, p + extLen));
  }

  /** parseSNI: an out-of-range index or slice ends it with ok = false, by recover. */
  method ParseSni(data: Slice) returns (name: Option<seq<Byte>>)
    requires data.Valid()
    ensures name == SniOf(data, false)
  {
    if data.len < 5 || data.At(0) != 0x16 {
      return None;
    }
    var recLen := data.Word(3);
    var rec := data.From(5);
    if rec.len > recLen {
      rec := rec.Cut(0, recLen);
    }
    if rec.len < 4 || rec.At(0) != 0x01 {
      return None;
    }
    var block := SkipToExtensions(rec.From(4));
    if block.None? {
      return None;
    }
    var exts := block.value;
    while exts.len >= 4
      invariant exts.Valid()
      invariant SniOf(data, false) == WalkExtensions(exts, false)
      decreases exts.len
    {
      var extType, extDataLen := exts.Word(0), exts.Word(2);
      if !exts.CanCut(4, 4 + extDataLen, false) { return None; }
      if extType == 0 {
        name := ReadServerName(exts.Cut(4, 4 + extDataLen));
        return name;
      }
      if exts.len < 4 + extDataLen { return None; }
      exts := exts.From(4 + extDataLen);
    }
    return None;
  }
}
