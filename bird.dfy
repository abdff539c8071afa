/** bird.rs: the BIRD configuration text built from the Headscale nodes and
    the email -> ASN table, and the writer that replaces the file on disk only
    when its SHA-256 digest differs from that of the new text. */
module Bird {
  import opened Wrappers
  import opened Headscale
  import opened Peerlab
  import opened Fs

  /** The `anyhow` context attached to each failure of the writer. */
  datatype Error =
    | ReadExisting     // "Failed to read existing configuration file"
    | WriteTemporary   // "Failed to write temporary configuration file"
    | RenameTemporary  // "Failed to rename temporary configuration file"

  // ---------------------------------------------------------------------------
  // Decimal rendering of an ASN (`{}` on a u32)
  // ---------------------------------------------------------------------------

  function DigitChar(d: nat): (c: char)
    requires d < 10
    ensures '0' <= c <= '9'
  {
    "0123456789"[d]
  }

  /** Base-10 digits of `n`, most significant first, without leading zeros. */
  function Decimal(n: nat): (s: string)
    ensures |s| >= 1
    ensures forall i :: 0 <= i < |s| ==> '0' <= s[i] <= '9'
    ensures n > 0 ==> s[0] != '0'
    ensures n == 0 ==> s == "0"
  {
    if n < 10 then [DigitChar(n)] else Decimal(n / 10) + [DigitChar(n % 10)]
  }

  /** Reads a string of decimal digits back as a number. */
  function ParseDecimal(s: string): nat
    requires forall i :: 0 <= i < |s| ==> '0' <= s[i] <= '9'
  {
    if |s| == 0 then 0
    else ParseDecimal(s[..|s| - 1]) * 10 + (s[|s| - 1] as int - '0' as int)
  }

  /** The rendering loses nothing: parsing it gives back the ASN. */
  lemma {:induction false} DecimalRoundTrip(n: nat)
    ensures ParseDecimal(Decimal(n)) == n
  {
    var s := Decimal(n);
    if n >= 10 {
      DecimalRoundTrip(n / 10);
      assert s[..|s| - 1] == Decimal(n / 10);
      assert s[|s| - 1] == DigitChar(n % 10);
    }
    assert forall d :: 0 <= d < 10 ==> DigitChar(d) as int - '0' as int == d;
  }

  // ---------------------------------------------------------------------------
  // generate_config
  // ---------------------------------------------------------------------------

  const HeaderMarker := "# Auto-generated IP to ASN mapping for peerlab\n"
  const FunctionOpen := "function get_user_asn(ip remote_ip) {\n"
  const Fallback := "    return 0;  # Unknown IP\n"
  const FunctionClose := "}\n"

  /** The two header comment lines and the blank line; `generatedAt` stands
      for the RFC 3339 rendering of the clock at generation time. */
  function Header(generatedAt: string): string {
    HeaderMarker + "# Generated at: " + generatedAt + "\n" + "\n"
  }

  /** The clause that returns `asn` for the address `ipv4`, commented with the email. */
  function RuleLine(ipv4: string, asn: u32, email: string): string {
    "    if (remote_ip = " + ipv4 + ") then return " + Decimal(asn as nat) + ";  # " + email + "\n"
  }

  /** `nodes.iter().filter(|n| n.has_user_email()).collect()`. */
  function PeerlabNodes(nodes: seq<Node>): (r: seq<Node>)
    ensures forall i :: 0 <= i < |r| ==> HasUserEmail(r[i])
    ensures |r| <= |nodes|
  {
    if |nodes| == 0 then []
    else
      var last := nodes[|nodes| - 1];
      PeerlabNodes(nodes[..|nodes| - 1]) + (if HasUserEmail(last) then [last] else [])
  }

  /** The filter keeps exactly the nodes whose user has a non-empty email. */
  lemma {:induction false} PeerlabNodesMembers(nodes: seq<Node>, n: Node)
    ensures n in PeerlabNodes(nodes) <==> n in nodes && HasUserEmail(n)
  {
    if |nodes| > 0 {
      var init, last := nodes[..|nodes| - 1], nodes[|nodes| - 1];
      assert nodes == init + [last];
      PeerlabNodesMembers(init, n);
    }
  }

  /** The filter works node by node and keeps input order: filtering a
      concatenation is concatenating the filtered parts. */
  lemma {:induction false} PeerlabNodesAppend(a: seq<Node>, b: seq<Node>)
    ensures PeerlabNodes(a + b) == PeerlabNodes(a) + PeerlabNodes(b)
  {
    if |b| == 0 {
      assert a + b == a;
    } else {
      var init, last := b[..|b| - 1], b[|b| - 1];
      assert (a + b)[..|a + b| - 1] == a + init;
      assert (a + b)[|a + b| - 1] == last;
      PeerlabNodesAppend(a, init);
    }
  }

  /** What one iteration of the `for` loop appends for a node with an email. */
  function NodeEntry(n: Node, emailToAsn: map<string, u32>): string
    requires HasUserEmail(n)
  {
    match GetIpv4(n)
    case None => ""
    case Some(ipv4) =>
      var email := n.user.email.value;
      if email in emailToAsn then RuleLine(ipv4, emailToAsn[email], email) else ""
  }

  /** What the `for` loop appends over a list of nodes that all have an email. */
  function Entries(ps: seq<Node>, emailToAsn: map<string, u32>): string
    requires forall i :: 0 <= i < |ps| ==> HasUserEmail(ps[i])
  {
    if |ps| == 0 then ""
    else Entries(ps[..|ps| - 1], emailToAsn) + NodeEntry(ps[|ps| - 1], emailToAsn)
  }

  /** The text `generate_config` returns. */
  function ConfigText(nodes: seq<Node>, emailToAsn: map<string, u32>, generatedAt: string): string {
    Header(generatedAt) + FunctionOpen + Entries(PeerlabNodes(nodes), emailToAsn) + Fallback + FunctionClose
  }

  /** Regrouping a concatenation, kept out of the loop's larger proof context. */
  lemma AppendAssociates(a: string, b: string, c: string)
    ensures (a + b) + c == a + (b + c)
  {
  }

  /** `generate_config`, with the clock reading passed in. It never fails. */
  method GenerateConfig(nodes: seq<Node>, emailToAsn: map<string, u32>, generatedAt: string)
    returns (r: Result<string, Error>)
    ensures r == Ok(ConfigText(nodes, emailToAsn, generatedAt))
  {
    var config := "";
    config := config + HeaderMarker;
    config := config + "# Generated at: " + generatedAt + "\n";
    config := config + "\n";
    assert config == Header(generatedAt);

    var peerlabNodes := PeerlabNodes(nodes);

    config := config + FunctionOpen;
    ghost var opening := config;
    for i := 0 to |peerlabNodes|
      invariant config == opening + Entries(peerlabNodes[..i], emailToAsn)
    {
      var node := peerlabNodes[i];
      assert peerlabNodes[..i + 1][..i] == peerlabNodes[..i];
      assert Entries(peerlabNodes[..i + 1], emailToAsn) ==
        Entries(peerlabNodes[..i], emailToAsn) + NodeEntry(node, emailToAsn);
      var entry := "";
      match GetIpv4(node) {
        case Some(ipv4) =>
          var email := node.user.email.value;
          if email in emailToAsn {
            var asn := emailToAsn[email];
            entry := RuleLine(ipv4, asn, email);
          }
        case None =>
      }
      assert entry == NodeEntry(node, emailToAsn);
      ghost var done := Entries(peerlabNodes[..i], emailToAsn);
      AppendAssociates(opening, done, entry);
      config := config + entry;
    }
    assert peerlabNodes[..|peerlabNodes|] == peerlabNodes;

    config := config + Fallback;
    config := config + FunctionClose;
    return Ok(config);
  }

  // ---------------------------------------------------------------------------
  // An independent description of the emitted clauses
  // ---------------------------------------------------------------------------

  /** A node gets a clause exactly when its user has a non-empty email, it has
      a "100.64." address, and its email is in the table. */
  predicate Emits(n: Node, emailToAsn: map<string, u32>) {
    HasUserEmail(n) && GetIpv4(n).Some? && n.user.email.value in emailToAsn
  }

  function ClauseFor(n: Node, emailToAsn: map<string, u32>): string
    requires Emits(n, emailToAsn)
  {
    var email := n.user.email.value;
    RuleLine(GetIpv4(n).value, emailToAsn[email], email)
  }

  /** One clause per emitting node, in input order. */
  function Clauses(nodes: seq<Node>, emailToAsn: map<string, u32>): seq<string> {
    if |nodes| == 0 then []
    else
      var n := nodes[0];
      (if Emits(n, emailToAsn) then [ClauseFor(n, emailToAsn)] else []) + Clauses(nodes[1..], emailToAsn)
  }

  function Concat(lines: seq<string>): string {
    if |lines| == 0 then "" else lines[0] + Concat(lines[1..])
  }

  lemma {:induction false} ConcatAppend(a: seq<string>, b: seq<string>)
    ensures Concat(a + b) == Concat(a) + Concat(b)
  {
    if |a| > 0 {
      assert (a + b)[1..] == a[1..] + b;
      ConcatAppend(a[1..], b);
    } else {
      assert a + b == b;
    }
  }

  /** Clauses of a concatenation are the clauses of each part, in order: lines
      keep their nodes' relative order and nothing is merged or deduplicated. */
  lemma {:induction false} ClausesAppend(a: seq<Node>, b: seq<Node>, emailToAsn: map<string, u32>)
    ensures Clauses(a + b, emailToAsn) == Clauses(a, emailToAsn) + Clauses(b, emailToAsn)
  {
    if |a| > 0 {
      assert (a + b)[0] == a[0];
      assert (a + b)[1..] == a[1..] + b;
      ClausesAppend(a[1..], b, emailToAsn);
    } else {
      assert a + b == b;
    }
  }

  /** A single node contributes exactly one clause when it emits, none otherwise. */
  lemma ClausesOfOne(n: Node, emailToAsn: map<string, u32>)
    ensures Clauses([n], emailToAsn) == if Emits(n, emailToAsn) then [ClauseFor(n, emailToAsn)] else []
  {
    assert [n][1..] == [];
  }

  /** Filtering first and then testing the address and table, as the loop
      does, emits exactly the clauses of the emitting nodes. */
  lemma {:induction false} EntriesAreClauses(nodes: seq<Node>, emailToAsn: map<string, u32>)
    ensures Entries(PeerlabNodes(nodes), emailToAsn) == Concat(Clauses(nodes, emailToAsn))
  {
    if |nodes| > 0 {
      var init, last := nodes[..|nodes| - 1], nodes[|nodes| - 1];
      assert nodes == init + [last];
      EntriesAreClauses(init, emailToAsn);
      ClausesAppend(init, [last], emailToAsn);
      ClausesOfOne(last, emailToAsn);
      ConcatAppend(Clauses(init, emailToAsn), Clauses([last], emailToAsn));
      var ps := PeerlabNodes(init);
      if HasUserEmail(last) {
        assert (ps + [last])[..|ps|] == ps;
        assert Concat([]) == "";
        if Emits(last, emailToAsn) {
          assert Concat([ClauseFor(last, emailToAsn)]) == ClauseFor(last, emailToAsn) + Concat([]);
        }
      } else {
        assert ps + [] == ps;
        assert !Emits(last, emailToAsn);
      }
    }
  }

  /** The whole shape of the generated text: header, function opening, one
      clause per emitting node in input order, fallback, closing brace. */
  lemma ConfigTextShape(nodes: seq<Node>, emailToAsn: map<string, u32>, generatedAt: string)
    ensures ConfigText(nodes, emailToAsn, generatedAt) ==
      Header(generatedAt) + FunctionOpen + Concat(Clauses(nodes, emailToAsn)) + Fallback + FunctionClose
  {
    EntriesAreClauses(nodes, emailToAsn);
  }

  /** The text split around the timestamp: what precedes it is fixed, and
      what follows is a blank line then the function. */
  lemma ConfigTextAroundTimestamp(nodes: seq<Node>, emailToAsn: map<string, u32>, t: string, rest: string)
    requires rest == FunctionOpen + Entries(PeerlabNodes(nodes), emailToAsn) + Fallback + FunctionClose
    ensures ConfigText(nodes, emailToAsn, t) == (HeaderMarker + "# Generated at: " + t + "\n\n") + rest
    ensures ConfigText(nodes, emailToAsn, t) == HeaderMarker + "# Generated at: " + t + ("\n\n" + rest)
  {
    var pre := HeaderMarker + "# Generated at: ";
    var body := Entries(PeerlabNodes(nodes), emailToAsn);
    calc {
      ConfigText(nodes, emailToAsn, t);
      Header(t) + FunctionOpen + body + Fallback + FunctionClose;
      { AppendAssociates(Header(t) + FunctionOpen + body, Fallback, FunctionClose);
        AppendAssociates(Header(t) + FunctionOpen, body, Fallback + FunctionClose);
        AppendAssociates(Header(t), FunctionOpen, body + (Fallback + FunctionClose)); }
      Header(t) + (FunctionOpen + (body + (Fallback + FunctionClose)));
      { assert FunctionOpen + (body + (Fallback + FunctionClose)) == rest; }
      Header(t) + rest;
      { assert Header(t) == pre + t + "\n\n"; }
      (pre + t + "\n\n") + rest;
    }
    AppendAssociates(pre + t, "\n\n", rest);
  }

  /** The text always begins with the marker line, the timestamp line and a blank line. */
  lemma ConfigStartsWithHeader(nodes: seq<Node>, emailToAsn: map<string, u32>, generatedAt: string)
    ensures HeaderMarker + "# Generated at: " + generatedAt + "\n\n" <= ConfigText(nodes, emailToAsn, generatedAt)
  {
    var rest := FunctionOpen + Entries(PeerlabNodes(nodes), emailToAsn) + Fallback + FunctionClose;
    ConfigTextAroundTimestamp(nodes, emailToAsn, generatedAt, rest);
  }

  /** The text always ends with the fallback `return 0` and the closing brace. */
  lemma ConfigEndsWithFallback(nodes: seq<Node>, emailToAsn: map<string, u32>, generatedAt: string)
    ensures var c := ConfigText(nodes, emailToAsn, generatedAt);
      |c| >= |Fallback + FunctionClose| &&
      c[|c| - |Fallback + FunctionClose|..] == "    return 0;  # Unknown IP\n}\n"
  {
    var c := ConfigText(nodes, emailToAsn, generatedAt);
    var body := Header(generatedAt) + FunctionOpen + Entries(PeerlabNodes(nodes), emailToAsn);
    assert c == body + (Fallback + FunctionClose);
  }

  // ---------------------------------------------------------------------------
  // write_config_if_changed
  // ---------------------------------------------------------------------------

  /** What the operating system does to each file-system call of one run. */
  datatype Faults = Faults(readFails: bool, tempWrite: WriteOutcome, renameFails: bool)

  const NoFaults := Faults(false, Completes, false)

  /** `path.with_extension("tmp")`. */
  function TempPath(path: Path): Path {
    WithExtension(path, "tmp")
  }

  /** What is assumed of SHA-256 in hex: distinct texts have distinct digests,
      and a digest is never the empty string (it has 64 hex digits). */
  ghost predicate DigestLike(sha256: string -> string) {
    && (forall a, b :: sha256(a) == sha256(b) ==> a == b)
    && (forall s :: sha256(s) != "")
  }

  /** The outcome and the new file system of one call of `write_config_if_changed`. */
  function WriteIfChanged(files: map<Path, string>, path: Path, content: string,
                          sha256: string -> string, faults: Faults): (Result<bool, Error>, map<Path, string>)
  {
    var newHash := sha256(content);
    if path in files && faults.readFails then (Err(ReadExisting), files)
    else
      // An absent file compares as the empty string, not as the digest of "".
      var existingHash := if path in files then sha256(files[path]) else "";
      if newHash == existingHash then (Ok(false), files)
      else
        var temp := TempPath(path);
        match faults.tempWrite
        case CreateFails => (Err(WriteTemporary), files)
        case FailsAfterWriting(w) => (Err(WriteTemporary), files[temp := w])
        case Completes =>
          var written := files[temp := content];
          if faults.renameFails then (Err(RenameTemporary), written)
          else (Ok(true), (written - {temp})[path := content])
  }

  /** `write_config_if_changed`: returns whether the file was replaced. */
  method WriteConfigIfChanged(fs: FileSystem, path: Path, content: string,
                              sha256: string -> string, faults: Faults)
    returns (r: Result<bool, Error>)
    requires faults.tempWrite.FailsAfterWriting? ==> faults.tempWrite.written <= content
    modifies fs
    ensures (r, fs.files) == WriteIfChanged(old(fs.files), path, content, sha256, faults)
  {
    var newHash := sha256(content);

    var existingHash: string;
    if fs.Exists(path) {
      var existingContent := fs.ReadToString(path, faults.readFails);
      if existingContent.None? {
        return Err(ReadExisting);
      }
      existingHash := sha256(existingContent.value);
    } else {
      existingHash := "";
    }

    if newHash != existingHash {
      var tempPath := TempPath(path);
      var written := fs.Write(tempPath, content, faults.tempWrite);
      if !written {
        return Err(WriteTemporary);
      }
      var renamed := fs.Rename(tempPath, path, faults.renameFails);
      if !renamed {
        return Err(RenameTemporary);
      }
      return Ok(true);
    } else {
      return Ok(false);
    }
  }

  /** Content equal to what is on disk: no write, result `false`, nothing changes. */
  lemma UnchangedContentIsNotWritten(files: map<Path, string>, path: Path, content: string,
                                     sha256: string -> string, faults: Faults)
    requires path in files && files[path] == content && !faults.readFails
    ensures WriteIfChanged(files, path, content, sha256, faults) == (Ok(false), files)
  {
  }

  /** With a digest-like hash, the result is `true` exactly when the file is
      absent or holds other text: an absent file is written even for empty content. */
  lemma ChangedExactlyWhenDifferent(files: map<Path, string>, path: Path, content: string,
                                    sha256: string -> string)
    requires DigestLike(sha256)
    ensures WriteIfChanged(files, path, content, sha256, NoFaults).0 ==
      Ok(path !in files || files[path] != content)
  {
    if path !in files {
      assert sha256(content) != "";
    } else if files[path] != content {
      assert sha256(files[path]) != sha256(content);
    }
  }

  /** A successful write leaves exactly `content` at `path` and every other
      path as it was; no temporary file remains unless it is `path` itself. */
  lemma {:induction false} WriteReplacesOnlyPath(files: map<Path, string>, path: Path, content: string,
                                                 sha256: string -> string)
    requires DigestLike(sha256)
    requires path !in files || files[path] != content
    ensures var (r, after) := WriteIfChanged(files, path, content, sha256, NoFaults);
      && r == Ok(true)
      && path in after && after[path] == content
      && (TempPath(path) != path ==> TempPath(path) !in after)
      && forall q :: q != path && q != TempPath(path) ==>
           (q in after <==> q in files) && (q in after ==> after[q] == files[q])
  {
    ChangedExactlyWhenDifferent(files, path, content, sha256);
  }

  /** Two calls in a row with the same content: whatever the first returned,
      the second (if its read succeeds) returns `false` and changes nothing. */
  lemma SecondWriteIsNoOp(files: map<Path, string>, path: Path, content: string,
                          sha256: string -> string, first: Faults, second: Faults)
    requires WriteIfChanged(files, path, content, sha256, first).0.Ok?
    requires !second.readFails
    ensures var after := WriteIfChanged(files, path, content, sha256, first).1;
      WriteIfChanged(after, path, content, sha256, second) == (Ok(false), after)
  {
  }

  /** A failed call never touches the configuration file itself, as long as
      the temporary path is a different file. */
  lemma FailureLeavesPathUntouched(files: map<Path, string>, path: Path, content: string,
                                   sha256: string -> string, faults: Faults)
    requires TempPath(path) != path
    ensures var (r, after) := WriteIfChanged(files, path, content, sha256, faults);
      r.Err? ==> (path in after <==> path in files) && (path in after ==> after[path] == files[path])
  {
  }

  /** The header carries the clock reading, so two generations at different
      times never produce the same text, even from the same nodes and table. */
  lemma TimestampAlwaysChangesText(nodes: seq<Node>, emailToAsn: map<string, u32>, t1: string, t2: string)
    requires t1 != t2
    ensures ConfigText(nodes, emailToAsn, t1) != ConfigText(nodes, emailToAsn, t2)
  {
    var rest := FunctionOpen + Entries(PeerlabNodes(nodes), emailToAsn) + Fallback + FunctionClose;
    ConfigTextAroundTimestamp(nodes, emailToAsn, t1, rest);
    ConfigTextAroundTimestamp(nodes, emailToAsn, t2, rest);
    InfixDiffers(HeaderMarker + "# Generated at: ", t1, t2, "\n\n" + rest);
  }

  /** Text framed by the same prefix and suffix differs when the middles differ. */
  lemma InfixDiffers(pre: string, a: string, b: string, post: string)
    requires a != b
    ensures pre + a + post != pre + b + post
  {
    if |a| == |b| {
      var i :| 0 <= i < |a| && a[i] != b[i];
      assert (pre + a + post)[|pre| + i] == a[i];
      assert (pre + b + post)[|pre| + i] == b[i];
    } else {
      assert |pre + a + post| != |pre + b + post|;
    }
  }

  /** Consequently a file last written at another time is always rewritten:
      the digest comparison never finds a regenerated configuration unchanged. */
  lemma RegeneratedConfigIsAlwaysWritten(files: map<Path, string>, path: Path, nodes: seq<Node>,
                                         emailToAsn: map<string, u32>, before: string, now: string,
                                         sha256: string -> string)
    requires DigestLike(sha256)
    requires path in files && files[path] == ConfigText(nodes, emailToAsn, before)
    requires before != now
    ensures WriteIfChanged(files, path, ConfigText(nodes, emailToAsn, now), sha256, NoFaults).0 == Ok(true)
  {
    TimestampAlwaysChangesText(nodes, emailToAsn, before, now);
    ChangedExactlyWhenDifferent(files, path, ConfigText(nodes, emailToAsn, now), sha256);
  }
}
