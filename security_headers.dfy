/**
 The edge-function response handler that stamps six fixed security headers
 onto every outgoing response.

 The header table of a response is a map from the exact (case-sensitive)
 header name to a record holding the header's value. The handler assigns six
 fixed entries into that table in place, one after the other, and hands the
 same response object back to the platform.
 */
module SecurityHeaders {

  /** The record stored under a header name: `{ value: ... }`. */
  datatype HeaderValue = HeaderValue(value: string)

  /** A response's header table, keyed by the exact header name. */
  type Headers = map<string, HeaderValue>

  /** One property assignment `headers[name] = { value: ... }`. */
  type Assignment = (string, HeaderValue)

  // The six header names, exactly as the handler spells them.
  const StrictTransportSecurity: string := "strict-transport-security"
  const ContentTypeOptions: string := "x-content-type-options"
  const FrameOptions: string := "x-frame-options"
  const XssProtection: string := "x-xss-protection"
  const ReferrerPolicy: string := "referrer-policy"
  const ContentSecurityPolicy: string := "content-security-policy"

  // The six fixed values.
  const StrictTransportSecurityValue: string := "max-age=31536000; includeSubdomains; preload"
  const ContentTypeOptionsValue: string := "nosniff"
  const FrameOptionsValue: string := "DENY"
  const XssProtectionValue: string := "1; mode=block"
  const ReferrerPolicyValue: string := "strict-origin-when-cross-origin"
  const ContentSecurityPolicyValue: string :=
    "default-src 'self'; script-src 'self' 'unsafe-inline'; style-src 'self' 'unsafe-inline'; img-src 'self' data: https:; font-src 'self' data:;"

  /** The set of the six names the handler writes. */
  const Names: set<string> :=
    {StrictTransportSecurity, ContentTypeOptions, FrameOptions,
     XssProtection, ReferrerPolicy, ContentSecurityPolicy}

  /** The six assignments, in the order the handler performs them. */
  const FixedAssignments: seq<Assignment> := [
    (StrictTransportSecurity, HeaderValue(StrictTransportSecurityValue)),
    (ContentTypeOptions, HeaderValue(ContentTypeOptionsValue)),
    (FrameOptions, HeaderValue(FrameOptionsValue)),
    (XssProtection, HeaderValue(XssProtectionValue)),
    (ReferrerPolicy, HeaderValue(ReferrerPolicyValue)),
    (ContentSecurityPolicy, HeaderValue(ContentSecurityPolicyValue))
  ]

  /** The fixed header table, one entry per assignment: six distinct names, each with its value. */
  function Fixed(): (m: Headers)
    ensures m.Keys == Names && |m| == 6
  {
    var a := FixedAssignments;
    map[a[0].0 := a[0].1, a[1].0 := a[1].1, a[2].0 := a[2].1,
        a[3].0 := a[3].1, a[4].0 := a[4].1, a[5].0 := a[5].1]
  }

  /** The effect of the handler on a header table: the old table overridden by the fixed one. */
  function Apply(h: Headers): (r: Headers)
    ensures r.Keys == h.Keys + Names
    ensures forall k :: k in Names ==> r[k] == Fixed()[k]
    ensures forall k :: k in h && k !in Names ==> r[k] == h[k]
  {
    h + Fixed()
  }

  /** A table that already carries all six fixed entries with their exact values. */
  predicate Secured(h: Headers)
  {
    forall k :: k in Names ==> k in h && h[k] == Fixed()[k]
  }

  /** The reference reading of the handler body: perform the assignments one after another. */
  function AssignAll(h: Headers, es: seq<Assignment>): Headers
    decreases es
  {
    if es == [] then h else AssignAll(h[es[0].0 := es[0].1], es[1..])
  }

  /** The table written by a series of assignments, later ones winning. */
  function Written(es: seq<Assignment>): Headers
  {
    if es == [] then map[] else map[es[0].0 := es[0].1] + Written(es[1..])
  }

  /** The names a series of assignments writes. */
  function NamesOf(es: seq<Assignment>): set<string>
  {
    set e | e in es :: e.0
  }

  /** Performing assignments one by one is the same as overriding with everything they write. */
  lemma {:induction false} AssignAllIsOverride(h: Headers, es: seq<Assignment>)
    ensures AssignAll(h, es) == h + Written(es)
    decreases es
  {
    if es != [] {
      var k, v := es[0].0, es[0].1;
      AssignAllIsOverride(h[k := v], es[1..]);
      assert h[k := v] == h + map[k := v];
      assert h + (map[k := v] + Written(es[1..])) == (h + map[k := v]) + Written(es[1..]);
    }
  }

  /** Assignments that all agree with a table M write exactly their names, each with M's value. */
  lemma {:induction false} WrittenAgrees(es: seq<Assignment>, M: Headers)
    requires forall e :: e in es ==> e.0 in M && M[e.0] == e.1
    ensures Written(es).Keys == NamesOf(es)
    ensures forall k :: k in Written(es) ==> Written(es)[k] == M[k]
  {
    if es != [] {
      WrittenAgrees(es[1..], M);
      assert NamesOf(es) == {es[0].0} + NamesOf(es[1..]) by {
        forall n | n in NamesOf(es) ensures n == es[0].0 || n in NamesOf(es[1..]) {
          var e :| e in es && e.0 == n;
          if e != es[0] {
            assert e in es[1..];
          }
        }
      }
    }
  }

  /** Every one of the six assignments agrees with the fixed table, and together they write its six names. */
  lemma FixedAssignmentsAgree()
    ensures forall e :: e in FixedAssignments ==> e.0 in Fixed() && Fixed()[e.0] == e.1
    ensures NamesOf(FixedAssignments) == Names
  {
  }

  /** Two series made of the same assignments, all agreeing with one table, end in the same table. */
  lemma SameAssignmentsSameResult(h: Headers, p: seq<Assignment>, q: seq<Assignment>, M: Headers)
    requires forall e :: e in p <==> e in q
    requires forall e :: e in q ==> e.0 in M && M[e.0] == e.1
    ensures AssignAll(h, p) == AssignAll(h, q)
  {
    AssignAllIsOverride(h, p);
    AssignAllIsOverride(h, q);
    WrittenAgrees(p, M);
    WrittenAgrees(q, M);
    assert NamesOf(p) == NamesOf(q);
  }

  /** Assignments that agree with a table and cover all its names end in the old table overridden by it. */
  lemma {:induction false} CoveringAssignmentsOverride(h: Headers, es: seq<Assignment>, M: Headers)
    requires forall e :: e in es ==> e.0 in M && M[e.0] == e.1
    requires NamesOf(es) == M.Keys
    ensures AssignAll(h, es) == h + M
  {
    AssignAllIsOverride(h, es);
    WrittenAgrees(es, M);
    assert Written(es) == M;
  }

  /** The six sequential assignments of the handler end in the old table overridden by the fixed one. */
  lemma HandlerBodyIsApply(h: Headers)
    ensures AssignAll(h, FixedAssignments) == Apply(h)
  {
    FixedAssignmentsAgree();
    CoveringAssignmentsOverride(h, FixedAssignments, Fixed());
  }

  /**
   Since the six names are distinct, the order of the assignments does not
   matter, nor does repeating some of them: any series made of exactly the
   six fixed assignments ends in the same table.
   */
  lemma AnyOrderIsApply(h: Headers, p: seq<Assignment>)
    requires forall e :: e in p <==> e in FixedAssignments
    ensures AssignAll(h, p) == Apply(h)
  {
    FixedAssignmentsAgree();
    SameAssignmentsSameResult(h, p, FixedAssignments, Fixed());
    HandlerBodyIsApply(h);
  }

  /** Applying the handler yields a secured table, and the secured tables are exactly its fixed points. */
  lemma SecuredIffFixedPoint(h: Headers)
    ensures Secured(Apply(h))
    ensures Secured(h) <==> Apply(h) == h
  {
  }

  /** Running the handler a second time changes nothing. */
  lemma ApplyIdempotent(h: Headers)
    ensures Apply(Apply(h)) == Apply(h)
  {
  }

  /** The table grows by at most the six names; it never shrinks. */
  lemma ApplySize(h: Headers)
    ensures |h| <= |Apply(h)| <= |h| + 6
    ensures |Apply(h)| == |h| + |Names - h.Keys|
  {
  }

  /** An empty table comes out with exactly the six fixed entries. */
  lemma ApplyEmpty()
    ensures Apply(map[]) == Fixed()
    ensures |Apply(map[])| == 6
  {
  }

  /**
   A video response that allows framing by its own origin: `content-type` is
   left as it is, `x-frame-options: SAMEORIGIN` becomes `DENY`, and the other
   five fixed headers are added.
   */
  lemma ApplyVideoResponse()
    ensures var h := map["content-type" := HeaderValue("video/mp4"),
                         FrameOptions := HeaderValue("SAMEORIGIN")];
            Apply(h) == Fixed()["content-type" := HeaderValue("video/mp4")]
            && Apply(h)[FrameOptions].value == "DENY"
            && |Apply(h)| == 7
  {
  }

  /** The handler's six assignments, written as successive map updates, end in the override. */
  lemma SixUpdatesAreApply(h: Headers)
    ensures var a := FixedAssignments;
            h[a[0].0 := a[0].1][a[1].0 := a[1].1][a[2].0 := a[2].1]
             [a[3].0 := a[3].1][a[4].0 := a[4].1][a[5].0 := a[5].1]
            == Apply(h)
  {
    var a := FixedAssignments;
    SixUpdates(h, a[0].0, a[0].1, a[1].0, a[1].1, a[2].0, a[2].1,
               a[3].0, a[3].1, a[4].0, a[4].1, a[5].0, a[5].1);
  }

  /** Six successive updates of a map are the map overridden by the display of the six, later ones winning. */
  lemma SixUpdates<K, V>(h: map<K, V>, k1: K, v1: V, k2: K, v2: V, k3: K, v3: V,
                         k4: K, v4: V, k5: K, v5: V, k6: K, v6: V)
    ensures h[k1 := v1][k2 := v2][k3 := v3][k4 := v4][k5 := v5][k6 := v6]
         == h + map[k1 := v1, k2 := v2, k3 := v3, k4 := v4, k5 := v5, k6 := v6]
  {
  }

  /**
   A response as the platform hands it over. Only `headers` is touched by the
   handler; `statusCode` stands for the platform's other response fields.
   */
  class Response {
    var headers: Headers
    var statusCode: int

    constructor (headers0: Headers, statusCode0: int)
      ensures headers == headers0 && statusCode == statusCode0
    {
      headers := headers0;
      statusCode := statusCode0;
    }
  }

  /** The event the platform passes to the handler. */
  class Event {
    var response: Response

    constructor (response0: Response)
      ensures response == response0
    {
      response := response0;
    }
  }

  /**
   The handler: six in-place assignments into `event.response.headers`,
   then the same response object is returned.
   */
  method Handler(event: Event) returns (out: Response)
    modifies event.response`headers
    ensures out == event.response
    ensures out.headers == Apply(old(out.headers))
    ensures forall k :: k in Names ==> k in out.headers && out.headers[k] == Fixed()[k]
    ensures forall k :: k !in Names ==> (k in out.headers <==> k in old(out.headers))
    ensures forall k :: k in old(out.headers) && k !in Names ==> out.headers[k] == old(out.headers[k])
    ensures out.statusCode == old(out.statusCode)
    ensures Secured(old(out.headers)) ==> out.headers == old(out.headers)
  {
    var response := event.response;
    ghost var h0 := response.headers;
    response.headers := response.headers[StrictTransportSecurity := HeaderValue(StrictTransportSecurityValue)];
    response.headers := response.headers[ContentTypeOptions := HeaderValue(ContentTypeOptionsValue)];
    response.headers := response.headers[FrameOptions := HeaderValue(FrameOptionsValue)];
    response.headers := response.headers[XssProtection := HeaderValue(XssProtectionValue)];
    response.headers := response.headers[ReferrerPolicy := HeaderValue(ReferrerPolicyValue)];
    response.headers := response.headers[ContentSecurityPolicy := HeaderValue(ContentSecurityPolicyValue)];
    SixUpdatesAreApply(h0);
    SecuredIffFixedPoint(h0);
    out := response;
  }
}
