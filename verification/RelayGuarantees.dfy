/** What peekHostname makes of a connection that opens with a ClientHello, however much of it the first read gives. */
module RelayGuarantees {
  import opened Integers
  import opened Text
  import opened Sni
  import opened SniGuarantees
  import opened Relay
  import opened HttpHost
  import H = HttpHostGuarantees

  /** The read buffer holds what has been received of the record, and zeros. */
  lemma ZeroedHolds(r: seq<Byte>, sent: seq<Byte>, head: seq<Byte>)
    requires r <= sent && head <= sent && |head| <= PEEK_SIZE
    ensures Received(Zeroed(head), |head|, r) && ZeroAfter(Zeroed(head), |head|)
  {
    forall i | 0 <= i < |head| && i < |r| ensures Zeroed(head)[i] == r[i] {
      assert sent[i] == r[i] == head[i];
    }
  }

  /**
   The name of a connection that opens with a ClientHello, of which the first read gave head:
   if parseSNI succeeds, the server name as far as it was received, with NULs for the rest of it;
   and if not, whatever parseHTTPHost finds in the same bytes.
   */
  lemma SniffOfHello(h: ClientHello, sent: seq<Byte>, head: seq<Byte>)
    requires WellFormed(h) && Record(h) <= sent && head <= sent && |head| <= PEEK_SIZE
    ensures if |Record(h)| <= PEEK_SIZE && NameFound(h.extensions, BlockStart(h), |head|)
            then NameSoFar(Sniff(head), h.extensions, BlockStart(h), |head|)
            else Sniff(head) == ParseHost(head).GetOr([])
  {
    ZeroedHolds(Record(h), sent, head);
    SniOfTruncated(h, Zeroed(head), |head|);
  }

  /**
   Of a ClientHello that the first read gave whole, the leading host_name, which is the host it
   names unless an entry of another kind comes first; without one, parseHTTPHost's finding.
   */
  lemma SniffOfWholeHello(h: ClientHello, sent: seq<Byte>, head: seq<Byte>)
    requires WellFormed(h) && Record(h) <= sent && head <= sent && |Record(h)| <= |head| <= PEEK_SIZE
    ensures Sniff(head) == LeadingHost(h.extensions).GetOr(ParseHost(head).GetOr([]))
    ensures HostLeads(h.extensions) ==> Sniff(head) == HostName(h.extensions).GetOr(ParseHost(head).GetOr([]))
  {
    LeadingIff(h.extensions);
    ZeroedHolds(Record(h), sent, head);
    SniOfEncoded(h, Zeroed(head), |head|, false);
  }

  /**
   The name of a connection that opens with anything but a handshake record: what parseHTTPHost
   finds, and nothing if no line names the Host field.
   */
  lemma SniffOfPlaintext(head: seq<Byte>)
    requires |head| <= PEEK_SIZE && (head == [] || head[0] != 0x16)
    ensures Sniff(head) == ParseHost(head).GetOr([])
    ensures (forall i :: 0 <= i < |SplitLines(head)| ==> !H.HostHeader(SplitLines(head)[i])) ==> Sniff(head) == []
  {
    if SniOf(Slice(Zeroed(head), 0, |head|), false).Some? {
      OnlyFromClientHello(Zeroed(head), |head|, false);
    }
    if forall i :: 0 <= i < |SplitLines(head)| ==> !H.HostHeader(SplitLines(head)[i]) {
      H.NoHostHeader(head);
    }
  }

  /** Of a plaintext request whose first Host line has been read, the host that it names. */
  lemma SniffOfRequest(lines: seq<seq<Byte>>, name: seq<Byte>, before: seq<Byte>, host: H.Host, port: seq<Byte>,
                       after: seq<Byte>, rest: seq<Byte>)
    requires forall i :: 0 <= i < |lines| ==> NoCrlf(lines[i]) && !H.HostHeader(lines[i])
    requires IsHost(name) && H.WellFormed(host) && H.OptionalPort(port) && H.AllSpace(before) && H.AllSpace(after)
    requires NoCrlf(H.HostLine(name, before, host, port, after))
    requires var head := H.Terminated(lines) + (H.HostLine(name, before, host, port, after) + CRLF + rest);
      |head| <= PEEK_SIZE && head[0] != 0x16
    ensures var head := H.Terminated(lines) + (H.HostLine(name, before, host, port, after) + CRLF + rest);
      Sniff(head) == H.ReadAs(host, port)
  {
    forall i | 0 <= i < |lines| ensures HostValue(lines[i]).None? {
      H.HostHeaderIff(lines[i]);
    }
    H.HostOfRequest(lines, name, before, host, port, after, rest);
    SniffOfPlaintext(H.Terminated(lines) + (H.HostLine(name, before, host, port, after) + CRLF + rest));
  }

  /**
   A name cut off in transit is not rejected: of "ab" without its last byte, "a" and a NUL are taken
   for the hostname.
   */
  lemma TruncatedNameAccepted() returns (h: ClientHello, n: nat)
    ensures WellFormed(h) && LeadingHost(h.extensions) == Some([97, 98]) && n < |Record(h)| <= PEEK_SIZE
    ensures Sniff(Record(h)[..n]) == [97, 0]
  {
    h := ExampleHello();
    n := |Record(h)| - 1;
    var head := Record(h)[..n];
    ZeroedHolds(Record(h), Record(h), head);
    RecordLocates(h);
    CutOneShort(Record(h), BlockStart(h), h.extensions, Zeroed(head), n);
  }
}
