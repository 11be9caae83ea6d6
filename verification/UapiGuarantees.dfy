/** parsePeerStatuses as the inverse of the device's printer, and on concatenated texts. */
module UapiGuarantees {
  import opened Text
  import opened Integers
  import opened Uapi

  type PrefixParser = string -> Option<Prefix>

  // ------------------------------------------------------------ concatenation

  /** The loop's effect on a peer, line by line. */
  function Absorb(p: PeerStatus, lines: seq<string>, parsePrefix: PrefixParser): PeerStatus
    decreases |lines|
  {
    if lines == [] then p else Absorb(AbsorbLine(p, lines[0], parsePrefix), lines[1..], parsePrefix)
  }

  lemma {:induction false} AbsorbMoreIsReading(block: seq<string>, lines: seq<string>, parsePrefix: PrefixParser)
    ensures BlockStatus(block + lines, parsePrefix) == Absorb(BlockStatus(block, parsePrefix), lines, parsePrefix)
    decreases |lines|
  {
    if lines == [] {
      assert block + lines == block;
    } else {
      AbsorbIsReading(block, lines[0], parsePrefix);
      AbsorbMoreIsReading(block + [lines[0]], lines[1..], parsePrefix);
      assert block + [lines[0]] + lines[1..] == block + lines;
    }
  }

  /** The blocks of a, when the lines b follow it. */
  function Joined(a: seq<seq<string>>, leading: seq<string>): seq<seq<string>> {
    if a == [] then [] else a[..|a| - 1] + [a[|a| - 1] + leading]
  }

  lemma {:induction false} LeadingStep(lines: seq<string>, line: string)
    ensures Leading(lines + [line]) ==
      if Blocks(lines) != [] || IsHeader(line) then Leading(lines) else Leading(lines) + [line]
    ensures Blocks(lines) == [] ==> Leading(lines) == lines
    decreases |lines|
  {
    if lines == [] {
      assert ([] + [line])[1..] == [];
    } else {
      var init, last := lines[..|lines| - 1], lines[|lines| - 1];
      BlocksStep(init, last);
      assert init + [last] == lines;
      LeadingStep(init, last);
      HeadersMakeBlocks(lines);
      LeadingAppend(lines, line);
    }
  }

  lemma {:induction false} HeadersMakeBlocks(lines: seq<string>)
    ensures Blocks(lines) != [] <==> exists i :: 0 <= i < |lines| && IsHeader(lines[i])
  {
    if lines != [] {
      var init := lines[..|lines| - 1];
      HeadersMakeBlocks(init);
      assert forall i :: 0 <= i < |init| ==> init[i] == lines[i];
    }
  }

  lemma {:induction false} LeadingAppend(lines: seq<string>, line: string)
    ensures Leading(lines + [line]) ==
      if (exists i :: 0 <= i < |lines| && IsHeader(lines[i])) || IsHeader(line)
      then Leading(lines) else Leading(lines) + [line]
    decreases |lines|
  {
    if lines == [] {
      assert ([] + [line])[1..] == [];
    } else if !IsHeader(lines[0]) {
      LeadingAppend(lines[1..], line);
      assert (lines + [line])[1..] == lines[1..] + [line];
      assert forall i :: 1 <= i < |lines| ==> lines[i] == lines[1..][i - 1];
    }
  }

  /** The blocks of b's lines, read after a's. */
  ghost predicate JoinsTo(a: seq<string>, b: seq<string>, ab: seq<string>) {
    Blocks(ab) == Joined(Blocks(a), Leading(b)) + Blocks(b)
  }

  lemma {:induction false} BlocksJoined(a: seq<string>, b: seq<string>)
    ensures JoinsTo(a, b, a + b)
    decreases |b|
  {
    if b == [] {
      JoinedNothing(Blocks(a));
      assert a + b == a;
    } else {
      var init, line := b[..|b| - 1], b[|b| - 1];
      BlocksJoined(a, init);
      BlocksJoinedStep(a, init, line, a + init);
      assert b == init + [line] && a + b == (a + init) + [line];
    }
  }

  lemma BlocksJoinedStep(a: seq<string>, init: seq<string>, line: string, whole: seq<string>)
    requires JoinsTo(a, init, whole)
    ensures JoinsTo(a, init + [line], whole + [line])
  {
    BlocksStep(whole, line);
    BlocksStep(init, line);
    LeadingStep(init, line);
    var x, leading, y := Blocks(a), Leading(init), Blocks(init);
    JoinedAdd(x, leading, y, line);
    assert Joined(x, leading + [line]) + [] == Joined(x, leading + [line]);
  }

  lemma JoinedNothing(a: seq<seq<string>>)
    ensures Joined(a, []) + [] == a
  {
    if a != [] {
      assert a[|a| - 1] + [] == a[|a| - 1];
    }
  }

  lemma JoinedAdd(a: seq<seq<string>>, leading: seq<string>, b: seq<seq<string>>, line: string)
    ensures AddLine(Joined(a, leading) + b, line) ==
      if b == [] && !IsHeader(line) then Joined(a, leading + [line]) else Joined(a, leading) + AddLine(b, line)
  {
    var joined := Joined(a, leading);
    if IsHeader(line) {
      assert joined + b + [[]] == joined + (b + [[]]);
    } else if b == [] {
      assert joined + b == joined;
      assert a != [] ==> a[|a| - 1] + leading + [line] == a[|a| - 1] + (leading + [line]);
    } else {
      assert (joined + b)[..|joined + b| - 1] == joined + b[..|b| - 1];
    }
  }

  /** The last peer, with the lines that follow it in the second text absorbed. */
  function WithLeading(peers: seq<PeerStatus>, leading: seq<string>, parsePrefix: PrefixParser): seq<PeerStatus> {
    if peers == [] then [] else peers[|peers| - 1 := Absorb(peers[|peers| - 1], leading, parsePrefix)]
  }

  lemma StatusesOfJoined(blocks: seq<seq<string>>, leading: seq<string>, parsePrefix: PrefixParser)
    ensures StatusesOf(Joined(blocks, leading), parsePrefix) ==
      WithLeading(StatusesOf(blocks, parsePrefix), leading, parsePrefix)
  {
    if blocks != [] {
      AbsorbMoreIsReading(blocks[|blocks| - 1], leading, parsePrefix);
      ReplaceLast(blocks, blocks[|blocks| - 1] + leading, parsePrefix);
    }
  }

  lemma StatusesJoined(a: string, b: string, parsePrefix: PrefixParser)
    ensures Statuses(a + "\n" + b, parsePrefix)
         == WithLeading(Statuses(a, parsePrefix), Leading(Split(b, '\n')), parsePrefix) + Statuses(b, parsePrefix)
  {
    var la, lb := Split(a, '\n'), Split(b, '\n');
    SplitJoined(a, '\n', b);
    BlocksJoined(la, lb);
    StatusesOfConcat(Joined(Blocks(la), Leading(lb)), Blocks(lb), parsePrefix);
    StatusesOfJoined(Blocks(la), Leading(lb), parsePrefix);
  }

  lemma StatusesOfConcat(x: seq<seq<string>>, y: seq<seq<string>>, parsePrefix: PrefixParser)
    ensures StatusesOf(x + y, parsePrefix) == StatusesOf(x, parsePrefix) + StatusesOf(y, parsePrefix)
  {
  }

  /**
   Two texts read one after the other give the peers of both, if and only if there is no peer
   for the second text's leading lines to change, or they do not change it.
   */
  lemma {:induction false} ConcatenationIff(a: string, b: string, parsePrefix: PrefixParser)
    ensures var peers := Statuses(a, parsePrefix);
      (Statuses(a + "\n" + b, parsePrefix) == peers + Statuses(b, parsePrefix)) <==>
      (peers == [] || Absorb(peers[|peers| - 1], Leading(Split(b, '\n')), parsePrefix) == peers[|peers| - 1])
  {
    StatusesJoined(a, b, parsePrefix);
    var peers, rest := Statuses(a, parsePrefix), Statuses(b, parsePrefix);
    var joined := WithLeading(peers, Leading(Split(b, '\n')), parsePrefix);
    assert joined == (joined + rest)[..|peers|] && peers == (peers + rest)[..|peers|];
    if peers != [] {
      assert joined[|peers| - 1] == Absorb(peers[|peers| - 1], Leading(Split(b, '\n')), parsePrefix);
    }
  }

  /** In particular if the second text's first key=value line is public_key. */
  lemma {:induction false} Concatenation(a: string, b: string, parsePrefix: PrefixParser)
    requires forall i :: 0 <= i < |Leading(Split(b, '\n'))| ==> '=' !in Leading(Split(b, '\n'))[i]
    ensures Statuses(a + "\n" + b, parsePrefix) == Statuses(a, parsePrefix) + Statuses(b, parsePrefix)
  {
    var peers := Statuses(a, parsePrefix);
    ConcatenationIff(a, b, parsePrefix);
    if peers != [] {
      NoFieldsNoChange(peers[|peers| - 1], Leading(Split(b, '\n')), parsePrefix);
    }
  }

  lemma {:induction false} NoFieldsNoChange(p: PeerStatus, lines: seq<string>, parsePrefix: PrefixParser)
    requires forall i :: 0 <= i < |lines| ==> '=' !in lines[i]
    ensures Absorb(p, lines, parsePrefix) == p
    decreases |lines|
  {
    if lines != [] {
      assert '=' !in lines[0];
      NoFieldsNoChange(p, lines[1..], parsePrefix);
    }
  }

  // ------------------------------------------------------------------ printing

  function Digit(d: nat): (c: char)
    requires d < 10
    ensures IsDigit(c) && DigitValue(c) == d
  {
    ('0' as int + d) as char
  }

  function Decimal(n: nat): (s: string)
    ensures s != "" && forall i :: 0 <= i < |s| ==> IsDigit(s[i])
  {
    if n < 10 then [Digit(n)] else Decimal(n / 10) + [Digit(n % 10)]
  }

  lemma {:induction false} ScanDecimal(n: nat)
    requires n <= MAX_UINT64
    ensures ScanDigits(Decimal(n), 0) == Good(n)
  {
    if n >= 10 {
      ScanDecimal(n / 10);
      ScanOneMore(Decimal(n / 10), 0, Digit(n % 10));
    } else {
      assert Decimal(n)[1..] == "";
    }
  }

  lemma {:induction false} ScanOneMore(s: string, n: nat, c: char)
    requires IsDigit(c) && ScanDigits(s, n).Good?
    ensures var m := ScanDigits(s, n).n * 10 + DigitValue(c);
      ScanDigits(s + [c], n) == if m > MAX_UINT64 then OutOfRange else Good(m)
    decreases |s|
  {
    if s == "" {
      assert (s + [c])[1..] == "";
    } else {
      ScanOneMore(s[1..], n * 10 + DigitValue(s[0]), c);
      assert (s + [c])[1..] == s[1..] + [c];
    }
  }

  lemma ParseDecimal(n: nat)
    ensures n <= MAX_UINT64 ==> UintValue(Decimal(n)) == n
    ensures n <= MAX_INT64 ==> ParseInt(Decimal(n)) == Some(n)
  {
    if n <= MAX_UINT64 {
      ScanDecimal(n);
      assert IsDigit(Decimal(n)[0]);
    }
  }

  // ------------------------------------------------------------ what fields mean

  predicate Digits(s: string) {
    forall i :: 0 <= i < |s| ==> 48 <= s[i] as int <= 57
  }

  /** The number that decimal digits stand for. */
  function NumberOf(s: string): nat
    requires Digits(s)
  {
    if s == "" then 0 else NumberOf(s[..|s| - 1]) * 10 + (s[|s| - 1] as int - 48)
  }

  lemma {:induction false} ScanAppend(a: string, b: string, n: nat)
    ensures ScanDigits(a + b, n) ==
      match ScanDigits(a, n) case Good(m) => ScanDigits(b, m) case fault => fault
    decreases |a|
  {
    if a == "" {
      assert a + b == b;
    } else {
      assert (a + b)[0] == a[0] && (a + b)[1..] == a[1..] + b;
      if IsDigit(a[0]) && n * 10 + DigitValue(a[0]) <= MAX_UINT64 {
        ScanAppend(a[1..], b, n * 10 + DigitValue(a[0]));
      }
    }
  }

  lemma {:induction false} ScanIsNumber(s: string)
    requires Digits(s)
    ensures ScanDigits(s, 0) == if NumberOf(s) <= 0xFFFF_FFFF_FFFF_FFFF then Good(NumberOf(s)) else OutOfRange
  {
    if s != "" {
      var init, last := s[..|s| - 1], s[|s| - 1];
      ScanIsNumber(init);
      assert s == init + [last] && IsDigit(last);
      ScanAppend(init, [last], 0);
      if ScanDigits(init, 0).Good? {
        ScanOneMore(init, 0, last);
      }
    }
  }

  /**
   The counters' value, whatever the text: with d the digits it begins with, 0 if anything else
   follows them or there are none, but the largest 64-bit number if d alone is beyond it.
   */
  lemma UintValueIs(d: string, rest: string)
    requires Digits(d) && (rest != "" ==> !(48 <= rest[0] as int <= 57))
    ensures UintValue(d + rest) ==
      if NumberOf(d) > 0xFFFF_FFFF_FFFF_FFFF then 0xFFFF_FFFF_FFFF_FFFF else if rest == "" then NumberOf(d) else 0
  {
    ScanIsNumber(d);
    ScanAppend(d, rest, 0);
    assert d == "" ==> d + rest == rest;
  }

  /** A handshake time: an optional sign and digits, within 64 bits; and nothing else. */
  lemma ParseIntIs(d: string)
    requires Digits(d) && d != ""
    ensures ParseInt(d) == ParseInt("+" + d) == if NumberOf(d) < 0x8000_0000_0000_0000 then Some(NumberOf(d)) else None
    ensures var v: int := NumberOf(d);
      ParseInt("-" + d) == if v <= 0x8000_0000_0000_0000 then Some(-v) else None
  {
    ScanIsNumber(d);
    assert ("+" + d)[1..] == d && ("-" + d)[1..] == d;
    assert IsDigit(d[0]);
  }

  lemma ParseIntOnly(s: string)
    requires ParseInt(s).Some?
    ensures s != "" && var d := if s[0] == '+' || s[0] == '-' then s[1..] else s; d != "" && Digits(d)
  {
    var d := if s[0] == '+' || s[0] == '-' then s[1..] else s;
    ScannedAreDigits(d, 0);
  }

  lemma {:induction false} ScannedAreDigits(s: string, n: nat)
    requires ScanDigits(s, n).Good?
    ensures Digits(s)
    decreases |s|
  {
    if s != "" {
      ScannedAreDigits(s[1..], n * 10 + DigitValue(s[0]));
      assert forall i :: 1 <= i < |s| ==> s[i] == s[1..][i - 1];
    }
  }

  /** What a further line does to the status of the last peer, field by field; other fields do nothing. */
  function FieldSet(p: PeerStatus, key: string, val: string, parsePrefix: PrefixParser): PeerStatus {
    match key
    case "endpoint" => p.(endpoint := val)
    case "allowed_ip" =>
      p.(allowedIPs := p.allowedIPs + if parsePrefix(val).Some? then [parsePrefix(val).value] else [])
    case "tx_bytes" => p.(txBytes := UintValue(val))
    case "rx_bytes" => p.(rxBytes := UintValue(val))
    case "last_handshake_time_sec" =>
      p.(lastHandshake := if ParseInt(val).GetOr(0) > 0 then ParseInt(val) else p.lastHandshake)
    case _ => p
  }

  lemma FieldSetIs(p: PeerStatus, key: string, val: string, parsePrefix: PrefixParser)
    ensures SetField(p, key, val, parsePrefix) == FieldSet(p, key, val, parsePrefix)
  {
    assert p.allowedIPs + [] == p.allowedIPs;
  }

  /**
   One more line of a status text: public_key begins a peer with nothing known of it, and every
   other field sets what its name says, of the last peer only.
   */
  lemma OneMoreField(raw: string, key: string, val: string, parsePrefix: PrefixParser)
    requires '=' !in key && '\n' !in key && '\n' !in val
    ensures var before := Statuses(raw, parsePrefix);
      Statuses(raw + "\n" + (key + "=" + val), parsePrefix) ==
        if key == "public_key" then before + [PeerStatus("", [], None, 0, 0)]
        else if before == [] then []
        else before[|before| - 1 := FieldSet(before[|before| - 1], key, val, parsePrefix)]
  {
    var line := key + "=" + val;
    OneMoreLine(raw, line, parsePrefix);
    FieldAfter(Statuses(raw, parsePrefix), key, val, parsePrefix);
  }

  lemma FieldAfter(before: seq<PeerStatus>, key: string, val: string, parsePrefix: PrefixParser)
    requires '=' !in key
    ensures PeersAfter(before, key + "=" + val, parsePrefix) ==
      if key == "public_key" then before + [PeerStatus("", [], None, 0, 0)]
      else if before == [] then []
      else before[|before| - 1 := FieldSet(before[|before| - 1], key, val, parsePrefix)]
  {
    CutAtFirst(key, '=', val);
    if before != [] {
      FieldSetIs(before[|before| - 1], key, val, parsePrefix);
    }
  }

  lemma OneMoreLine(raw: string, line: string, parsePrefix: PrefixParser)
    requires '\n' !in line
    ensures Statuses(raw + "\n" + line, parsePrefix) == PeersAfter(Statuses(raw, parsePrefix), line, parsePrefix)
  {
    SplitJoined(raw, '\n', line);
    SplitWhole(line, '\n');
    LineReadsBlocks(Split(raw, '\n'), line, parsePrefix);
  }

  /** A line that is no field does nothing. */
  lemma NoField(raw: string, line: string, parsePrefix: PrefixParser)
    requires '=' !in line && '\n' !in line
    ensures Statuses(raw + "\n" + line, parsePrefix) == Statuses(raw, parsePrefix)
  {
    OneMoreLine(raw, line, parsePrefix);
    NothingAfter(Statuses(raw, parsePrefix), line, parsePrefix);
  }

  lemma NothingAfter(before: seq<PeerStatus>, line: string, parsePrefix: PrefixParser)
    requires '=' !in line
    ensures PeersAfter(before, line, parsePrefix) == before
  {
    assert Cut(line, '=').None?;
  }

  /** A peer as the device prints it; format prints a prefix. */
  datatype Printed = Printed(publicKey: string, presharedKey: string, nsec: string, keepalive: string,
                             status: PeerStatus)

  /** A field of the status text, key and value. */
  datatype Field = Field(key: string, val: string)

  function Line(f: Field): string { f.key + "=" + f.val }

  function Lines(fields: seq<Field>): (r: seq<string>)
    ensures |r| == |fields| && forall i :: 0 <= i < |fields| ==> r[i] == Line(fields[i])
  {
    seq(|fields|, i requires 0 <= i < |fields| => Line(fields[i]))
  }

  function PrefixFields(prefixes: seq<Prefix>, format: Prefix -> string): (r: seq<Field>)
    ensures |r| == |prefixes| && forall i :: 0 <= i < |prefixes| ==> r[i] == Field("allowed_ip", format(prefixes[i]))
  {
    seq(|prefixes|, i requires 0 <= i < |prefixes| => Field("allowed_ip", format(prefixes[i])))
  }

  function Seconds(t: Option<int>): nat { if t.Some? && t.value >= 0 then t.value else 0 }

  function HeadFields(p: Printed): seq<Field> {
    [Field("preshared_key", p.presharedKey), Field("protocol_version", "1")]
  }

  function EndpointFields(s: PeerStatus): seq<Field> {
    if s.endpoint == "" then [] else [Field("endpoint", s.endpoint)]
  }

  function CounterFields(p: Printed): seq<Field> {
    [Field("last_handshake_time_sec", Decimal(Seconds(p.status.lastHandshake))),
     Field("last_handshake_time_nsec", p.nsec),
     Field("tx_bytes", Decimal(p.status.txBytes)), Field("rx_bytes", Decimal(p.status.rxBytes)),
     Field("persistent_keepalive_interval", p.keepalive)]
  }

  /** The fields of a peer after its public_key, in the device's order. */
  function Details(p: Printed, format: Prefix -> string): seq<Field> {
    HeadFields(p) + EndpointFields(p.status) + CounterFields(p) + PrefixFields(p.status.allowedIPs, format)
  }

  /** The counters fit 64 bits, and a handshake time is a positive 63-bit number. */
  predicate Printable(s: PeerStatus) {
    s.txBytes <= MAX_UINT64 && s.rxBytes <= MAX_UINT64
      && (s.lastHandshake.Some? ==> 0 < s.lastHandshake.value <= MAX_INT64)
  }

  predicate Faithful(parsePrefix: PrefixParser, format: Prefix -> string, prefixes: seq<Prefix>) {
    forall i :: 0 <= i < |prefixes| ==> parsePrefix(format(prefixes[i])) == Some(prefixes[i])
  }

  function SetAll(p: PeerStatus, fields: seq<Field>, parsePrefix: PrefixParser): PeerStatus
    decreases |fields|
  {
    if fields == [] then p else SetAll(SetField(p, fields[0].key, fields[0].val, parsePrefix), fields[1..], parsePrefix)
  }

  lemma {:induction false} SetAllAppend(p: PeerStatus, a: seq<Field>, b: seq<Field>, parsePrefix: PrefixParser)
    ensures SetAll(p, a + b, parsePrefix) == SetAll(SetAll(p, a, parsePrefix), b, parsePrefix)
    decreases |a|
  {
    if a == [] {
      assert a + b == b;
    } else {
      SetAllAppend(SetField(p, a[0].key, a[0].val, parsePrefix), a[1..], b, parsePrefix);
      assert (a + b)[1..] == a[1..] + b;
    }
  }

  /** Every key is a UAPI key of a peer: no '=' in it, and not the one that starts a peer. */
  predicate DetailKeys(fields: seq<Field>) {
    forall i :: 0 <= i < |fields| ==> '=' !in fields[i].key && fields[i].key != "public_key"
  }

  lemma {:induction false} AbsorbFields(p: PeerStatus, fields: seq<Field>, parsePrefix: PrefixParser)
    requires DetailKeys(fields)
    ensures Absorb(p, Lines(fields), parsePrefix) == SetAll(p, fields, parsePrefix)
    decreases |fields|
  {
    if fields != [] {
      CutAtFirst(fields[0].key, '=', fields[0].val);
      AbsorbFields(SetField(p, fields[0].key, fields[0].val, parsePrefix), fields[1..], parsePrefix);
      assert Lines(fields)[1..] == Lines(fields[1..]);
    }
  }

  lemma {:induction false} SetPrefixes(p: PeerStatus, prefixes: seq<Prefix>, parsePrefix: PrefixParser,
                                       format: Prefix -> string)
    requires Faithful(parsePrefix, format, prefixes)
    ensures SetAll(p, PrefixFields(prefixes, format), parsePrefix) == p.(allowedIPs := p.allowedIPs + prefixes)
    decreases |prefixes|
  {
    var fields := PrefixFields(prefixes, format);
    if prefixes == [] {
      assert p.allowedIPs + prefixes == p.allowedIPs;
    } else {
      var next := SetField(p, fields[0].key, fields[0].val, parsePrefix);
      assert next == p.(allowedIPs := p.allowedIPs + [prefixes[0]]);
      SetPrefixes(next, prefixes[1..], parsePrefix, format);
      assert fields[1..] == PrefixFields(prefixes[1..], format);
      assert p.allowedIPs + [prefixes[0]] + prefixes[1..] == p.allowedIPs + prefixes;
    }
  }

  lemma SetHead(p: Printed, s: PeerStatus, parsePrefix: PrefixParser)
    ensures SetAll(s, HeadFields(p), parsePrefix) == s
  {
    var f := HeadFields(p);
    assert f[1..][1..] == [];
    assert SetAll(s, f[1..], parsePrefix) == s;
  }

  lemma SetCounters(p: Printed, s: PeerStatus, parsePrefix: PrefixParser)
    requires Printable(p.status) && s.lastHandshake == None
    ensures SetAll(s, CounterFields(p), parsePrefix)
      == s.(lastHandshake := p.status.lastHandshake, txBytes := p.status.txBytes, rxBytes := p.status.rxBytes)
  {
    ParseDecimal(Seconds(p.status.lastHandshake));
    ParseDecimal(p.status.txBytes);
    ParseDecimal(p.status.rxBytes);
    var f := CounterFields(p);
    var s1 := s.(lastHandshake := p.status.lastHandshake);
    var s2 := s1.(txBytes := p.status.txBytes);
    var s3 := s2.(rxBytes := p.status.rxBytes);
    SetHandshake(s, f[0].val, parsePrefix);
    SetUnknown(s1, "last_handshake_time_nsec", f[1].val, parsePrefix);
    SetBytes(s1, f[2].val, parsePrefix);
    SetBytes(s2, f[3].val, parsePrefix);
    SetUnknown(s3, "persistent_keepalive_interval", f[4].val, parsePrefix);
    SetFive(f, s, s1, s1, s2, s3, s3, parsePrefix);
  }

  lemma SetHandshake(s: PeerStatus, val: string, parsePrefix: PrefixParser)
    ensures SetField(s, "last_handshake_time_sec", val, parsePrefix) ==
      if ParseInt(val).Some? && ParseInt(val).value > 0 then s.(lastHandshake := ParseInt(val)) else s
  {
  }

  lemma SetBytes(s: PeerStatus, val: string, parsePrefix: PrefixParser)
    ensures SetField(s, "tx_bytes", val, parsePrefix) == s.(txBytes := UintValue(val))
    ensures SetField(s, "rx_bytes", val, parsePrefix) == s.(rxBytes := UintValue(val))
  {
  }

  lemma SetUnknown(s: PeerStatus, key: string, val: string, parsePrefix: PrefixParser)
    requires key == "last_handshake_time_nsec" || key == "persistent_keepalive_interval"
    ensures SetField(s, key, val, parsePrefix) == s
  {
    assert |key| == 24 || |key| == 29;
  }

  lemma SetFive(f: seq<Field>, s0: PeerStatus, s1: PeerStatus, s2: PeerStatus, s3: PeerStatus,
                                  s4: PeerStatus, s5: PeerStatus, parsePrefix: PrefixParser)
    requires |f| == 5
    requires SetField(s0, f[0].key, f[0].val, parsePrefix) == s1 && SetField(s1, f[1].key, f[1].val, parsePrefix) == s2
    requires SetField(s2, f[2].key, f[2].val, parsePrefix) == s3 && SetField(s3, f[3].key, f[3].val, parsePrefix) == s4
    requires SetField(s4, f[4].key, f[4].val, parsePrefix) == s5
    ensures SetAll(s0, f, parsePrefix) == s5
  {
    assert f[1..][0] == f[1] && f[1..][1..] == f[2..];
    assert f[2..][0] == f[2] && f[2..][1..] == f[3..];
    assert f[3..][0] == f[3] && f[3..][1..] == f[4..];
    assert f[4..][0] == f[4] && f[4..][1..] == [];
    assert SetAll(s4, f[4..], parsePrefix) == s5;
    assert SetAll(s3, f[3..], parsePrefix) == s5;
    assert SetAll(s2, f[2..], parsePrefix) == s5;
    assert SetAll(s1, f[1..], parsePrefix) == s5;
  }

  lemma SetOne(p: PeerStatus, f: Field, rest: seq<Field>, parsePrefix: PrefixParser)
    ensures SetAll(p, [f] + rest, parsePrefix) == SetAll(SetField(p, f.key, f.val, parsePrefix), rest, parsePrefix)
  {
    assert ([f] + rest)[1..] == rest;
  }

  lemma SetEndpoint(s: PeerStatus, p: PeerStatus, parsePrefix: PrefixParser)
    requires s.endpoint == ""
    ensures SetAll(s, EndpointFields(p), parsePrefix) == s.(endpoint := p.endpoint)
  {
    if p.endpoint != "" {
      SetOne(s, EndpointFields(p)[0], [], parsePrefix);
      assert EndpointFields(p) + [] == EndpointFields(p);
    }
  }

  /** A peer's printed details read back as the peer. */
  lemma DetailsReadBack(p: Printed, parsePrefix: PrefixParser, format: Prefix -> string)
    requires Printable(p.status) && Faithful(parsePrefix, format, p.status.allowedIPs)
    ensures SetAll(NO_STATUS, Details(p, format), parsePrefix) == p.status
  {
    var a, b, c, d := HeadFields(p), EndpointFields(p.status), CounterFields(p),
      PrefixFields(p.status.allowedIPs, format);
    SetAllAppend(NO_STATUS, a + b + c, d, parsePrefix);
    SetAllAppend(NO_STATUS, a + b, c, parsePrefix);
    SetAllAppend(NO_STATUS, a, b, parsePrefix);
    SetHead(p, NO_STATUS, parsePrefix);
    SetEndpoint(NO_STATUS, p.status, parsePrefix);
    var s := NO_STATUS.(endpoint := p.status.endpoint);
    SetCounters(p, s, parsePrefix);
    SetPrefixes(s.(lastHandshake := p.status.lastHandshake, txBytes := p.status.txBytes, rxBytes := p.status.rxBytes),
                p.status.allowedIPs, parsePrefix, format);
    assert [] + p.status.allowedIPs == p.status.allowedIPs;
  }

  // ------------------------------------------------------------ printer inverse

  function PeerLines(p: Printed, format: Prefix -> string): seq<string> {
    [Line(Field("public_key", p.publicKey))] + Lines(Details(p, format))
  }

  function AllPeerLines(ps: seq<Printed>, format: Prefix -> string): seq<string> {
    if ps == [] then [] else PeerLines(ps[0], format) + AllPeerLines(ps[1..], format)
  }

  lemma DetailsAreNoHeaders(fields: seq<Field>)
    requires DetailKeys(fields)
    ensures Leading(Lines(fields)) == Lines(fields) && Blocks(Lines(fields)) == []
  {
    var lines := Lines(fields);
    forall i | 0 <= i < |lines| ensures !IsHeader(lines[i]) {
      CutAtFirst(fields[i].key, '=', fields[i].val);
    }
    HeadersMakeBlocks(lines);
    LeadingStep(lines, "");
  }

  lemma DetailKeysAppend(a: seq<Field>, b: seq<Field>)
    requires DetailKeys(a) && DetailKeys(b)
    ensures DetailKeys(a + b)
  {
  }

  lemma DetailKeysOne(f: Field)
    requires '=' !in f.key && |f.key| != |"public_key"|
    ensures DetailKeys([f])
  {
  }

  lemma TimeKeys()
    ensures '=' !in "last_handshake_time_sec" && '=' !in "last_handshake_time_nsec"
  {
  }

  lemma OtherKeys()
    ensures '=' !in "tx_bytes" && '=' !in "rx_bytes" && '=' !in "persistent_keepalive_interval"
  {
  }

  lemma CounterKeys(p: Printed)
    ensures DetailKeys(CounterFields(p))
  {
    var f := CounterFields(p);
    TimeKeys();
    OtherKeys();
    DetailKeysOne(f[0]);
    DetailKeysOne(f[1]);
    DetailKeysOne(f[2]);
    DetailKeysOne(f[3]);
    DetailKeysOne(f[4]);
    forall i | 0 <= i < |f| ensures '=' !in f[i].key && f[i].key != "public_key" {
      assert DetailKeys([f[i]]) && [f[i]][0] == f[i];
    }
  }

  lemma HeadKeys(p: Printed)
    ensures DetailKeys(HeadFields(p))
  {
    assert |"preshared_key"| == 13 && |"protocol_version"| == 16;
  }

  lemma EndpointKeys(s: PeerStatus)
    ensures DetailKeys(EndpointFields(s))
  {
    assert |"endpoint"| == 8;
  }

  lemma PrefixKeys(prefixes: seq<Prefix>, format: Prefix -> string)
    ensures DetailKeys(PrefixFields(prefixes, format))
  {
    assert "allowed_ip"[0] == 'a';
  }

  lemma DetailsHaveDetailKeys(p: Printed, format: Prefix -> string)
    ensures DetailKeys(Details(p, format))
  {
    var a, b, c, d := HeadFields(p), EndpointFields(p.status), CounterFields(p),
      PrefixFields(p.status.allowedIPs, format);
    HeadKeys(p);
    EndpointKeys(p.status);
    PrefixKeys(p.status.allowedIPs, format);
    CounterKeys(p);
    DetailKeysAppend(a, b);
    DetailKeysAppend(a + b, c);
    DetailKeysAppend(a + b + c, d);
  }

  lemma HeaderLine(key: string)
    ensures IsHeader(Line(Field("public_key", key))) && Blocks([Line(Field("public_key", key))]) == [[]]
  {
    CutAtFirst("public_key", '=', key);
    BlocksStep([], Line(Field("public_key", key)));
    assert [] + [Line(Field("public_key", key))] == [Line(Field("public_key", key))];
  }

  /** A peer's lines are one block, its details. */
  lemma PeerIsBlock(key: string, fields: seq<Field>)
    requires DetailKeys(fields)
    ensures Blocks([Line(Field("public_key", key))] + Lines(fields)) == [Lines(fields)]
  {
    var head, lines := [Line(Field("public_key", key))], Lines(fields);
    HeaderLine(key);
    DetailsAreNoHeaders(fields);
    BlocksJoined(head, lines);
    OneBlock(lines);
  }

  lemma OneBlock(lines: seq<string>)
    ensures Joined([[]], lines) + [] == [lines]
  {
    assert [] + lines == lines;
  }

  function Blocked(ps: seq<Printed>, format: Prefix -> string): (r: seq<seq<string>>)
    ensures |r| == |ps| && forall i :: 0 <= i < |ps| ==> r[i] == Lines(Details(ps[i], format))
  {
    seq(|ps|, i requires 0 <= i < |ps| => Lines(Details(ps[i], format)))
  }

  lemma {:induction false} PeersAreBlocks(ps: seq<Printed>, format: Prefix -> string)
    ensures Blocks(AllPeerLines(ps, format)) == Blocked(ps, format)
    ensures Leading(AllPeerLines(ps, format)) == []
  {
    if ps != [] {
      var fields, rest := Details(ps[0], format), AllPeerLines(ps[1..], format);
      PeersAreBlocks(ps[1..], format);
      DetailsHaveDetailKeys(ps[0], format);
      FirstPeer(ps[0].publicKey, fields, rest);
      BlockedStep(ps, format);
    }
  }

  lemma BlockedStep(ps: seq<Printed>, format: Prefix -> string)
    requires ps != []
    ensures Blocked(ps, format) == [Lines(Details(ps[0], format))] + Blocked(ps[1..], format)
  {
  }

  lemma FirstPeer(key: string, fields: seq<Field>, rest: seq<string>)
    requires DetailKeys(fields) && Leading(rest) == []
    ensures var lines := [Line(Field("public_key", key))] + Lines(fields) + rest;
      Blocks(lines) == [Lines(fields)] + Blocks(rest) && Leading(lines) == []
  {
    var first := [Line(Field("public_key", key))] + Lines(fields);
    PeerIsBlock(key, fields);
    BlocksJoined(first, rest);
    JoinedNothing(Blocks(first));
    HeaderLine(key);
    assert (first + rest)[0] == Line(Field("public_key", key));
  }

  lemma BlocksReadBack(ps: seq<Printed>, parsePrefix: PrefixParser, format: Prefix -> string, i: nat)
    requires i < |ps| && Printable(ps[i].status) && Faithful(parsePrefix, format, ps[i].status.allowedIPs)
    ensures StatusesOf(Blocked(ps, format), parsePrefix)[i] == ps[i].status
  {
    DetailsHaveDetailKeys(ps[i], format);
    DetailsReadBack(ps[i], parsePrefix, format);
    FieldsReadBack(Details(ps[i], format), parsePrefix);
  }

  lemma FieldsReadBack(fields: seq<Field>, parsePrefix: PrefixParser)
    requires DetailKeys(fields)
    ensures BlockStatus(Lines(fields), parsePrefix) == SetAll(NO_STATUS, fields, parsePrefix)
  {
    AbsorbMoreIsReading([], Lines(fields), parsePrefix);
    assert [] + Lines(fields) == Lines(fields);
    AbsorbFields(NO_STATUS, fields, parsePrefix);
  }

  /** The device's own lines, printed before its peers, hold no public_key. */
  predicate DeviceLines(lines: seq<string>) {
    forall i :: 0 <= i < |lines| ==> !IsHeader(lines[i])
  }

  /**
   Printer inverse: of a status text with any device lines and any peers, parsePeerStatuses
   returns exactly those peers, in order, with every field as printed.
   */
  lemma {:induction false} ParsesPrinted(device: seq<string>, ps: seq<Printed>, parsePrefix: PrefixParser,
                                         format: Prefix -> string)
    requires DeviceLines(device)
    requires var lines := device + AllPeerLines(ps, format); forall i :: 0 <= i < |lines| ==> '\n' !in lines[i]
    requires forall i :: 0 <= i < |ps| ==>
      Printable(ps[i].status) && Faithful(parsePrefix, format, ps[i].status.allowedIPs)
    ensures var peers := Statuses(Unlines(device + AllPeerLines(ps, format)), parsePrefix);
      |peers| == |ps| && forall i :: 0 <= i < |ps| ==> peers[i] == ps[i].status
  {
    var lines := AllPeerLines(ps, format);
    SplitWholeText(device + lines);
    PeersAreBlocks(ps, format);
    HeadersMakeBlocks(device);
    BlocksJoined(device, lines);
    assert Joined(Blocks(device), Leading(lines)) == [];
    assert Blocks(device + lines) == Blocked(ps, format);
    LastLineEmpty(device + lines, parsePrefix);
    forall i | 0 <= i < |ps| ensures StatusesOf(Blocked(ps, format), parsePrefix)[i] == ps[i].status {
      BlocksReadBack(ps, parsePrefix, format, i);
    }
  }

  lemma SplitWholeText(lines: seq<string>)
    requires forall i :: 0 <= i < |lines| ==> '\n' !in lines[i]
    ensures Split(Unlines(lines), '\n') == lines + [""]
  {
    var tail: string := "";
    assert |tail| == 0;
    SplitUnlines(lines, tail);
    assert Unlines(lines) + tail == Unlines(lines);
  }

  lemma {:induction false} LastLineEmpty(lines: seq<string>, parsePrefix: PrefixParser)
    ensures StatusesOf(Blocks(lines + [""]), parsePrefix) == StatusesOf(Blocks(lines), parsePrefix)
  {
    LineReadsBlocks(lines, "", parsePrefix);
  }
}
