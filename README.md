# peerlab-bird-config, modelled in Dafny

peerlab-bird-config turns two lists into a BIRD configuration snippet. One is the
tailnet nodes from Headscale. The other is the user mappings from peerlab-gateway.
The snippet is a BIRD function `get_user_asn(ip remote_ip)`. It maps each peerlab
user's tailnet IPv4 address to that user's autonomous system number (ASN). The
program writes the snippet to disk only when its SHA-256 digest differs from the
digest of the file already there. It first writes a temporary file next to the
target, then renames it over the target.

The model has five modules:

- `Wrappers` (wrappers.dfy): `Option` and `Result`.
- `Headscale` (headscale.dfy): the `Node` and `User` records. It also models the three
  selectors from `impl Node`: `get_ipv4`, `get_ipv6` and `has_user_email`. They are pure
  functions, and their contracts say which address they pick.
- `Peerlab` (peerlab.dfy): the `UserMapping` record and the loop in `fetch_mappings`
  that builds the email → ASN table. The loop is a method proved against `EmailToAsn`, a
  left fold over the list. Lemmas show which keys the table has, that the last mapping
  wins, and which mappings are ignored.
- `Fs` (fs.dfy): a `FileSystem` class whose one field maps each path to its content.
  The function `Exists` is how the model defines `Path::exists`: the path has content
  in the map. The methods `ReadToString`, `Write` and `Rename` stand for
  `fs::read_to_string`, `fs::write` and `fs::rename`. Failures reported by the
  operating system are parameters.
- `Bird` (bird.dfy): `generate_config` is a method that grows the text in a loop. It is
  proved against `ConfigText`. `ConfigText` is in turn proved equal to an independent
  description: one clause per qualifying node, in input order. `write_config_if_changed`
  is the module-level method `WriteConfigIfChanged`, which takes the `FileSystem` it
  changes as a parameter. It is proved against `WriteIfChanged`, a function giving the
  result and the new file system. Lemmas about that function state the
  write-only-on-change behaviour.

Inputs that cannot be computed inside the model are parameters:

- `generatedAt` is the RFC 3339 reading of the clock.
- `sha256` is the hex-digest function. Lemmas that need it assume `DigestLike`: the
  function is injective and never returns the empty string.
- `Faults` says which file-system call fails and how.

Behaviour of the code worth noting:

- The configuration is the `get_user_asn` function that bird.rs emits: one
  `return <asn>` clause per node that has an email, a "100.64." address and an entry
  in the table; `UserMapping.prefixes` is never read.
- When the file is absent, the baseline digest is the literal empty string, not the
  digest of empty content. So an absent file is always written, even when the new
  content is empty (`ChangedExactlyWhenDifferent`).
- The digest covers the whole text, including the timestamp line. So a configuration
  regenerated at a different time is always rewritten (`RegeneratedConfigIsAlwaysWritten`).
- `get_ipv4` tests the textual prefix "100.64.". That is not a check for membership in
  100.64.0.0/10: it misses 100.65.x.x through 100.127.x.x.
- `path.with_extension("tmp")` is the target itself when the target already has the
  extension `tmp`. Then the write goes straight to the target and the rename onto
  itself changes nothing, so a failed partial write lands on the target:
  `FailureLeavesPathUntouched` requires the two paths to differ, and
  `WriteReplacesOnlyPath` promises that no temporary file is left only when they do.

## Model

| member | source | states |
|---|---|---|
| `Headscale.Find` | src/headscale.rs:83-86 | `Iterator::find`: `None` exactly when no element satisfies the predicate; otherwise some element that satisfies it and comes before every other such element |
| `Headscale.GetIpv4` | src/headscale.rs:82-87 | `None` exactly when no address starts with "100.64."; otherwise the first address in list order that does |
| `Headscale.GetIpv6` | src/headscale.rs:91-96 | `None` exactly when no address contains ':'; otherwise the first address in list order that does |
| `Headscale.HasUserEmail` | src/headscale.rs:99-101 | true exactly when the user's email is present and is not the empty string |
| `Headscale.SelectedAddressIsOwn` | src/headscale.rs:82-96 | whatever `get_ipv4` or `get_ipv6` returns is one of the node's own addresses |
| `Headscale.GetIpv4First` | src/headscale.rs:82-87 | if address i starts with "100.64." and no earlier one does, `get_ipv4` returns exactly address i |
| `Headscale.SelectorsReadOnlyAddressesAndEmail` | src/headscale.rs:80-101 | two nodes with the same address list and the same user email agree on all three selectors, whatever their other fields |
| `Peerlab.BuildEmailToAsn` | src/peerlab.rs:50-57 | the loop leaves in the table exactly the left fold of "insert email → asn unless the email is missing or empty" over the mappings |
| `Peerlab.EmailToAsnKeys` | src/peerlab.rs:51-55 | an email is a key of the table exactly when some mapping carries that email and it is non-empty |
| `Peerlab.EmailToAsnLastWins` | src/peerlab.rs:51-54 | the ASN stored for an email is that of the last mapping carrying it |
| `Peerlab.SkippedMappingChangesNothing` | src/peerlab.rs:52-53 | appending a mapping with no email or an empty email leaves the table unchanged |
| `Peerlab.EmailToAsnSize` | src/peerlab.rs:50-57 | the table has at most as many entries as there are mappings |
| `Peerlab.EmailToAsnIgnoresOtherFields` | src/peerlab.rs:8-14 | lists that agree on every mapping's email and ASN give the same table: `user_hash`, `user_id` and `prefixes` have no effect |
| `Fs.FileSystem.ReadToString` | src/bird.rs:62-63 | the read yields the file's content exactly when the file exists and the read does not fail |
| `Fs.FileSystem.Write` | src/bird.rs:77 | a completed write stores the content at the path; a failed create changes nothing; a write failing part-way leaves at the path the prefix of the content written so far (the caller must supply a prefix); only completion reports success |
| `Fs.FileSystem.Rename` | src/bird.rs:80 | on success the target holds the source's content, the source is gone and nothing else changes; on failure nothing changes |
| `Bird.Decimal` | src/bird.rs:36-38 | an ASN is rendered as a non-empty string of decimal digits with no leading zero; 0 is rendered as "0" |
| `Bird.DecimalRoundTrip` | src/bird.rs:36-38 | parsing the rendered ASN gives back the number, so the rendering loses nothing |
| `Bird.PeerlabNodes` | src/bird.rs:23 | every node kept by the filter has a non-empty user email, and the filter keeps no more nodes than it is given |
| `Bird.PeerlabNodesMembers` | src/bird.rs:23 | a node is in the filtered list exactly when it is in the input and its user has a non-empty email |
| `Bird.PeerlabNodesAppend` | src/bird.rs:23 | filtering a concatenation gives the filtered first part followed by the filtered second part, so input order is kept |
| `Bird.GenerateConfig` | src/bird.rs:11-50 | always returns `Ok`, and the text it builds in the loop is `ConfigText` of the nodes, the table and the timestamp |
| `Bird.EntriesAreClauses` | src/bird.rs:22-44 | filtering on email first and then testing for an address and a table entry emits exactly the clauses of the nodes that pass all three tests, in input order |
| `Bird.ConfigTextShape` | src/bird.rs:14-47 | the text is the header, `function get_user_asn(ip remote_ip) {`, one clause per qualifying node in input order, `return 0;  # Unknown IP` and `}` |
| `Bird.ClausesAppend` | src/bird.rs:30-44 | the clauses of two node lists joined are the clauses of the first followed by those of the second: order is kept and nodes sharing an email are not deduplicated |
| `Bird.ClausesOfOne` | src/bird.rs:31-43 | a node contributes exactly the line `    if (remote_ip = <ipv4>) then return <asn>;  # <email>` when it has an email, a "100.64." address and a table entry, and nothing otherwise |
| `Bird.ConfigStartsWithHeader` | src/bird.rs:15-20 | the text begins with the marker comment line, the `# Generated at:` line and a blank line |
| `Bird.ConfigEndsWithFallback` | src/bird.rs:46-47 | the text ends with `    return 0;  # Unknown IP` and the closing brace |
| `Bird.TimestampAlwaysChangesText` | src/bird.rs:16-19 | texts generated at different times differ, even from the same nodes and table |
| `Bird.WriteConfigIfChanged` | src/bird.rs:54-87 | the result and the new file system are those of `WriteIfChanged`: hash both texts, read only if the file exists, write the temporary file and rename it over the target only when the digests differ |
| `Bird.UnchangedContentIsNotWritten` | src/bird.rs:61-86 | when the file exists with exactly the new content and the read succeeds, the result is `false` and the file system is unchanged |
| `Bird.ChangedExactlyWhenDifferent` | src/bird.rs:55-72 | with an injective, never-empty digest and no failures, the result is `true` exactly when the file is absent or holds different text, including an absent file with empty new content |
| `Bird.WriteReplacesOnlyPath` | src/bird.rs:72-82 | after a successful change the target holds exactly the new content, every other path is as before, and the temporary file is gone unless it is the target itself (a target already ending in `.tmp`) |
| `Bird.SecondWriteIsNoOp` | src/bird.rs:54-87 | after a call that succeeded, a second call with the same content whose read succeeds returns `false` and changes nothing |
| `Bird.FailureLeavesPathUntouched` | src/bird.rs:62-80 | a call that fails at the read, the temporary write or the rename leaves the target's presence and content as they were |
| `Bird.RegeneratedConfigIsAlwaysWritten` | src/bird.rs:16-72 | a file generated at one time is always rewritten by a generation at another time, because the timestamp is inside the digested text |

## Left out

- `fetch_nodes` (src/headscale.rs:48-78) and the request, status check and JSON decoding in `fetch_mappings` (src/peerlab.rs:22-47): network I/O with reqwest, serde and async. The model starts from the decoded lists.
- src/main.rs: argument parsing, tracing set-up and the async orchestration that calls the fetches, the generator and the writer in turn. It is glue only.
- src/config.rs: a plain record. Its `reload_bird` field is not read anywhere.
- SHA-256 itself and its hex formatting: `sha256` is a parameter. Only injectivity and non-emptiness are assumed, and only in the lemmas that need them.
- The clock `chrono::Utc::now().to_rfc3339()`: its reading is the `generatedAt` parameter.
- Logging (`debug!`, `info!`, `warn!`), including the warning for a node whose email has no ASN.
- `fs::read_to_string` failing on invalid UTF-8 or on a directory is not modelled apart from other read failures: all of them are the `readFails` fault. Paths are structured records (directory, stem, extension), not parsed text. `with_extension` on a path without a file name is not modelled.
- `Path::exists` returns false when the file's metadata cannot be read (for example, permission denied on the directory); the source then uses the "" baseline and goes straight to the write. `Exists` is presence in the map, so a present file whose metadata cannot be read is not represented.
- Real file-system atomicity and concurrent writers are not modelled. The rename is a single update of the map.
