/** User mappings served by peerlab-gateway, and the email -> ASN table that
    `fetch_mappings` builds from them once the HTTP response is decoded. */
module Peerlab {
  import opened Wrappers

  /** Rust's `u32`. */
  newtype u32 = x: int | 0 <= x < 0x1_0000_0000

  datatype UserMapping = UserMapping(
    userHash: string,
    userId: string,
    email: Option<string>,
    asn: u32,
    prefixes: seq<string>)

  /** The email a mapping is filed under, if any: present and non-empty. */
  predicate FiledUnder(m: UserMapping, e: string) {
    m.email == Some(e) && e != ""
  }

  /** One iteration of the loop: insert `email -> asn` unless the email is
      missing or empty; an existing entry for the same email is overwritten. */
  function Insert(table: map<string, u32>, m: UserMapping): map<string, u32> {
    match m.email
    case Some(e) => if |e| > 0 then table[e := m.asn] else table
    case None => table
  }

  /** The table after the loop has consumed all of `ms`, in order. */
  function EmailToAsn(ms: seq<UserMapping>): map<string, u32> {
    if |ms| == 0 then map[] else Insert(EmailToAsn(ms[..|ms| - 1]), ms[|ms| - 1])
  }

  /** The loop at peerlab.rs lines 50-57, over an already decoded list. */
  method BuildEmailToAsn(mappings: seq<UserMapping>) returns (emailToAsn: map<string, u32>)
    ensures emailToAsn == EmailToAsn(mappings)
  {
    emailToAsn := map[];
    for i := 0 to |mappings|
      invariant emailToAsn == EmailToAsn(mappings[..i])
    {
      var mapping := mappings[i];
      match mapping.email {
        case Some(email) =>
          if email != "" {
            emailToAsn := emailToAsn[email := mapping.asn];
          }
        case None =>
      }
      assert mappings[..i + 1][..i] == mappings[..i];
    }
    assert mappings[..|mappings|] == mappings;
  }

  /** An email is a key exactly when some mapping is filed under it. */
  lemma {:induction false} EmailToAsnKeys(ms: seq<UserMapping>, e: string)
    ensures e in EmailToAsn(ms) <==> exists i :: 0 <= i < |ms| && FiledUnder(ms[i], e)
  {
    if |ms| > 0 {
      var init := ms[..|ms| - 1];
      EmailToAsnKeys(init, e);
      if e in EmailToAsn(init) {
        var i :| 0 <= i < |init| && FiledUnder(init[i], e);
        assert FiledUnder(ms[i], e);
      }
      if exists i :: 0 <= i < |ms| && FiledUnder(ms[i], e) {
        var i :| 0 <= i < |ms| && FiledUnder(ms[i], e);
        if i < |init| {
          assert FiledUnder(init[i], e);
        }
      }
    }
  }

  /** Last one wins: the value stored for `e` is the ASN of the last mapping
      filed under `e`. */
  lemma {:induction false} EmailToAsnLastWins(ms: seq<UserMapping>, i: nat, e: string)
    requires i < |ms| && FiledUnder(ms[i], e)
    requires forall j :: i < j < |ms| ==> !FiledUnder(ms[j], e)
    ensures e in EmailToAsn(ms) && EmailToAsn(ms)[e] == ms[i].asn
  {
    var init := ms[..|ms| - 1];
    if i < |ms| - 1 {
      assert init[i] == ms[i];
      forall j | i < j < |init| ensures !FiledUnder(init[j], e) {
        assert init[j] == ms[j];
      }
      EmailToAsnLastWins(init, i, e);
    }
  }

  /** A mapping without an email, or with an empty one, leaves the table as it was. */
  lemma SkippedMappingChangesNothing(ms: seq<UserMapping>, m: UserMapping)
    requires m.email == None || m.email == Some("")
    ensures EmailToAsn(ms + [m]) == EmailToAsn(ms)
  {
    assert (ms + [m])[..|ms|] == ms;
  }

  /** The table never has more entries than there are mappings. */
  lemma {:induction false} EmailToAsnSize(ms: seq<UserMapping>)
    ensures |EmailToAsn(ms)| <= |ms|
  {
    if |ms| > 0 {
      var init := ms[..|ms| - 1];
      EmailToAsnSize(init);
      var t := EmailToAsn(init);
      var m := ms[|ms| - 1];
      if m.email.Some? && m.email.value != "" {
        var e := m.email.value;
        assert t[e := m.asn].Keys == t.Keys + {e};
        assert |t.Keys + {e}| <= |t.Keys| + 1;
      }
    }
  }

  /** Only `email` and `asn` matter: `user_hash`, `user_id` and `prefixes`
      have no effect on the table. */
  lemma {:induction false} EmailToAsnIgnoresOtherFields(ms: seq<UserMapping>, ns: seq<UserMapping>)
    requires |ms| == |ns|
    requires forall i :: 0 <= i < |ms| ==> ms[i].email == ns[i].email && ms[i].asn == ns[i].asn
    ensures EmailToAsn(ms) == EmailToAsn(ns)
  {
    if |ms| > 0 {
      EmailToAsnIgnoresOtherFields(ms[..|ms| - 1], ns[..|ns| - 1]);
    }
  }
}
