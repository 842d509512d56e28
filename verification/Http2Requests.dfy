/**
 * Which request a header list spells (section 8.1.2.3 of RFC 7540), told by the headers themselves and not by the
 * loop that collects them.
 */
module Http2Requests {
  import opened Common
  import opened Http2
  import opened HttpText
  import Hpack

  type Headers = seq<Hpack.Header>

  // ----- The relation -----

  /** The last header with this name. */
  ghost predicate LastNamed(hs: Headers, name: bytes, i: nat) {
    i < |hs| && hs[i].name == name && forall j | i < j < |hs| :: hs[j].name != name
  }

  predicate Unnamed(hs: Headers, name: bytes) {
    forall j | 0 <= j < |hs| :: hs[j].name != name
  }

  /** The value of the last header with this name, or nothing. */
  ghost predicate LastValue(hs: Headers, name: bytes, v: bytes) {
    && (Unnamed(hs, name) ==> v == [])
    && (forall i: nat | LastNamed(hs, name, i) :: v == hs[i].value)
  }

  predicate HasQuery(h: Hpack.Header) {
    h.name == Raw(":path") && 63 in h.value
  }

  ghost predicate LastWithQuery(hs: Headers, i: nat) {
    i < |hs| && HasQuery(hs[i]) && forall j | i < j < |hs| :: !HasQuery(hs[j])
  }

  /** The path is that of the last target, the query that of the last target with one. */
  ghost predicate TargetSpelled(q: Request, hs: Headers) {
    && LastValue(hs, Raw(":path"), q.uri) && IsPath(q.uri, q.path)
    && ((forall j | 0 <= j < |hs| :: !HasQuery(hs[j])) ==> q.query == [])
    && (forall i: nat | LastWithQuery(hs, i) :: IsQuery(hs[i].value, q.query))
  }

  /** A header that sets this field: an ordinary one of that name, or the authority for the host. */
  predicate Sets(h: Hpack.Header, field: bytes) {
    || (h.name == Raw(":authority") && field == Raw("Host"))
    || (h.name == field && field != [] && field[0] != 58)
  }

  ghost predicate LastSetting(hs: Headers, field: bytes, i: nat) {
    i < |hs| && Sets(hs[i], field) && forall j | i < j < |hs| :: !Sets(hs[j], field)
  }

  predicate NeverSet(hs: Headers, field: bytes) {
    forall j | 0 <= j < |hs| :: !Sets(hs[j], field)
  }

  /** Each field has the value of the last header that sets it, and there are no others. */
  ghost predicate FieldsSpelled(fields: map<bytes, bytes>, hs: Headers) {
    && (forall n: bytes :: n in fields <==> !NeverSet(hs, n))
    && (forall n: bytes, i: nat | n in fields && LastSetting(hs, n, i) :: fields[n] == hs[i].value)
  }

  predicate VerbSpelled(verb: Method, text: bytes) {
    && (verb == GET <==> text == Raw("GET")) && (verb == POST <==> text == Raw("POST"))
    && (verb == HEAD <==> text == Raw("HEAD")) && (verb == PUT <==> text == Raw("PUT"))
    && (verb == DELETE <==> text == Raw("DELETE")) && (verb == OPTIONS <==> text == Raw("OPTIONS"))
  }

  /** What is collected header by header. */
  ghost predicate Collected(q: Request, hs: Headers) {
    LastValue(hs, Raw(":method"), q.methodStr) && TargetSpelled(q, hs) && FieldsSpelled(q.headers, hs)
  }

  ghost predicate Spells(hs: Headers, body: bytes, q: Request) {
    && Collected(q, hs) && VerbSpelled(q.verb, q.methodStr)
    && q.version == Raw("HTTP/2") && q.body == body
  }

  // ----- One header more -----

  lemma PseudoNames()
    ensures var m, p, a, s, h := Raw(":method"), Raw(":path"), Raw(":authority"), Raw(":scheme"), Raw("Host");
            && m != p && m != a && m != s && p != a && p != s && a != s
            && |h| > 0 && h[0] == 72
            && (forall n | n in {m, p, a, s} :: |n| > 0 && n[0] == 58)
  {
    var m, p, a, s, h := Raw(":method"), Raw(":path"), Raw(":authority"), Raw(":scheme"), Raw("Host");
    assert |m| == 7 && |p| == 5 && |a| == 10 && |s| == 7 && m[1] == 109 && s[1] == 115;
    assert m[0] == 58 && p[0] == 58 && a[0] == 58 && s[0] == 58 && h[0] == 72;
  }

  lemma LastValueMore(hs: Headers, h: Hpack.Header, name: bytes, v: bytes)
    requires LastValue(hs, name, v)
    ensures LastValue(hs + [h], name, if h.name == name then h.value else v)
  {
    var all := hs + [h];
    forall i: nat | LastNamed(all, name, i)
      ensures all[i].value == if h.name == name then h.value else v
    {
      if h.name == name {
        assert all[|hs|].name == name;
      } else {
        assert LastNamed(hs, name, i) by {
          forall j | i < j < |hs| ensures hs[j].name != name { assert all[j] == hs[j]; }
        }
      }
    }
    if Unnamed(all, name) {
      assert all[|hs|] == h;
      forall j | 0 <= j < |hs| ensures hs[j].name != name { assert all[j] == hs[j]; }
    }
  }

  lemma {:induction false} TargetSplit(target: bytes)
    ensures var k := Find(target, 63);
            && IsPath(target, target[..k])
            && (k < |target| <==> 63 in target)
            && (k < |target| ==> IsQuery(target, target[k + 1..]))
  {
    FirstMark(target);
    var k := Find(target, 63);
    if k < |target| {
      assert target[k] == 63;
      SplitAt(target, k);
    } else {
      assert target[..k] == target;
    }
  }

  lemma {:induction false} FirstMark(s: bytes)
    ensures 63 !in s[..Find(s, 63)]
    decreases |s|
  {
    if s != [] && s[0] != 63 {
      FirstMark(s[1..]);
      var k := Find(s[1..], 63);
      assert s[..k + 1] == [s[0]] + s[1..][..k];
    }
  }

  lemma LastQueryMore(hs: Headers, h: Hpack.Header, q: bytes, v: bytes)
    requires (forall j | 0 <= j < |hs| :: !HasQuery(hs[j])) ==> q == []
    requires forall i: nat | LastWithQuery(hs, i) :: IsQuery(hs[i].value, q)
    requires if HasQuery(h) then IsQuery(h.value, v) else v == q
    ensures (forall j | 0 <= j < |hs + [h]| :: !HasQuery((hs + [h])[j])) ==> v == []
    ensures forall i: nat | LastWithQuery(hs + [h], i) :: IsQuery((hs + [h])[i].value, v)
  {
    hide HasQuery, IsQuery;
    var all := hs + [h];
    assert all[|hs|] == h;
    if forall j | 0 <= j < |all| :: !HasQuery(all[j]) {
      forall j | 0 <= j < |hs| ensures !HasQuery(hs[j]) { assert all[j] == hs[j]; }
    }
    forall i: nat | LastWithQuery(all, i)
      ensures IsQuery(all[i].value, v)
    {
      if !HasQuery(h) {
        assert LastWithQuery(hs, i) by {
          forall j | i < j < |hs| ensures !HasQuery(hs[j]) { assert all[j] == hs[j]; }
        }
      }
    }
  }

  lemma SetsMore(hs: Headers, h: Hpack.Header, fields: map<bytes, bytes>, name: bytes)
    requires FieldsSpelled(fields, hs) && forall n: bytes :: Sets(h, n) <==> n == name
    ensures FieldsSpelled(fields[name := h.value], hs + [h])
  {
    hide Sets;
    var all, more := hs + [h], fields[name := h.value];
    assert all[|hs|] == h;
    forall n: bytes
      ensures n in more <==> !NeverSet(all, n)
    {
      NeverSetMore(hs, h, n);
    }
    forall n: bytes, i: nat | n in more && LastSetting(all, n, i)
      ensures more[n] == all[i].value
    {
      if n != name {
        LastSettingMore(hs, h, n, i);
      }
    }
  }

  lemma SetsNone(hs: Headers, h: Hpack.Header, fields: map<bytes, bytes>)
    requires FieldsSpelled(fields, hs) && forall n: bytes :: !Sets(h, n)
    ensures FieldsSpelled(fields, hs + [h])
  {
    hide Sets;
    var all := hs + [h];
    forall n: bytes
      ensures n in fields <==> !NeverSet(all, n)
    {
      NeverSetMore(hs, h, n);
    }
    forall n: bytes, i: nat | n in fields && LastSetting(all, n, i)
      ensures fields[n] == all[i].value
    {
      LastSettingMore(hs, h, n, i);
    }
  }

  lemma NeverSetMore(hs: Headers, h: Hpack.Header, n: bytes)
    ensures NeverSet(hs + [h], n) <==> NeverSet(hs, n) && !Sets(h, n)
  {
    hide Sets;
    var all := hs + [h];
    assert all[|hs|] == h;
    if NeverSet(all, n) {
      forall j | 0 <= j < |hs| ensures !Sets(hs[j], n) { assert all[j] == hs[j]; }
    }
  }

  lemma LastSettingMore(hs: Headers, h: Hpack.Header, n: bytes, i: nat)
    requires !Sets(h, n) && LastSetting(hs + [h], n, i)
    ensures LastSetting(hs, n, i) && (hs + [h])[i] == hs[i]
  {
    hide Sets;
    var all := hs + [h];
    assert all[|hs|] == h;
    forall j | i < j < |hs| ensures !Sets(hs[j], n) { assert all[j] == hs[j]; }
  }

  /** Which field a header sets, if any. */
  lemma SetsWhat(h: Hpack.Header)
    ensures h.name == Raw(":authority") ==> forall n: bytes :: Sets(h, n) <==> n == Raw("Host")
    ensures h.name != Raw(":authority") && h.name != [] && h.name[0] != 58 ==> forall n: bytes :: Sets(h, n) <==> n == h.name
    ensures h.name != Raw(":authority") && (h.name == [] || h.name[0] == 58) ==> forall n: bytes :: !Sets(h, n)
  {
    hide Raw;
    PseudoNames();
  }

  lemma FieldsMore(hs: Headers, h: Hpack.Header, q: Request)
    requires FieldsSpelled(q.headers, hs)
    ensures FieldsSpelled(ApplyHeader(q, h).headers, hs + [h])
  {
    hide Raw, Find, Sets, FieldsSpelled;
    PseudoNames();
    SetsWhat(h);
    if h.name == Raw(":authority") {
      SetsMore(hs, h, q.headers, Raw("Host"));
    } else if h.name != [] && h.name[0] != 58 {
      SetsMore(hs, h, q.headers, h.name);
    } else {
      SetsNone(hs, h, q.headers);
    }
  }

  lemma TargetMore(hs: Headers, h: Hpack.Header, q: Request)
    requires TargetSpelled(q, hs)
    ensures TargetSpelled(ApplyHeader(q, h), hs + [h])
  {
    hide Raw, Find, LastValue, IsPath, IsQuery;
    PseudoNames();
    TargetSplit(h.value);
    LastValueMore(hs, h, Raw(":path"), q.uri);
    LastQueryMore(hs, h, q.query, ApplyHeader(q, h).query);
  }

  lemma MethodMore(hs: Headers, h: Hpack.Header, q: Request)
    requires LastValue(hs, Raw(":method"), q.methodStr)
    ensures LastValue(hs + [h], Raw(":method"), ApplyHeader(q, h).methodStr)
  {
    hide Raw, Find, LastValue;
    PseudoNames();
    LastValueMore(hs, h, Raw(":method"), q.methodStr);
  }

  // ----- The whole list -----

  lemma {:induction false} AppliedLast(q: Request, hs: Headers, h: Hpack.Header)
    ensures ApplyHeaders(q, hs + [h]) == ApplyHeader(ApplyHeaders(q, hs), h)
    decreases |hs|
  {
    hide ApplyHeader;
    if hs == [] {
      assert hs + [h] == [h] && [h][1..] == [];
    } else {
      AppliedLast(ApplyHeader(q, hs[0]), hs[1..], h);
      assert (hs + [h])[0] == hs[0] && (hs + [h])[1..] == hs[1..] + [h];
    }
  }

  lemma {:induction false} AppliedCollected(hs: Headers)
    ensures Collected(ApplyHeaders(NO_REQUEST, hs), hs)
    decreases |hs|
  {
    hide ApplyHeader, LastValue, TargetSpelled, FieldsSpelled, Raw;
    if hs == [] {
      NothingCollected();
    } else {
      var before, h := hs[..|hs| - 1], hs[|hs| - 1];
      assert hs == before + [h];
      AppliedCollected(before);
      AppliedLast(NO_REQUEST, before, h);
      var q := ApplyHeaders(NO_REQUEST, before);
      MethodMore(before, h, q);
      TargetMore(before, h, q);
      FieldsMore(before, h, q);
    }
  }

  lemma NothingCollected()
    ensures Collected(NO_REQUEST, [])
  {
    hide Raw;
  }

  lemma VerbOf(text: bytes)
    ensures VerbSpelled(MethodOf(text), text)
  {
    hide Raw;
    VerbNames();
  }

  lemma VerbNames()
    ensures var g, p, h, u, d, o := Raw("GET"), Raw("POST"), Raw("HEAD"), Raw("PUT"), Raw("DELETE"), Raw("OPTIONS");
            && g != p && g != h && g != u && g != d && g != o && p != h && p != u && p != d && p != o
            && h != u && h != d && h != o && u != d && u != o && d != o
  {
    assert |Raw("GET")| == 3 && |Raw("POST")| == 4 && |Raw("HEAD")| == 4 && |Raw("PUT")| == 3;
    assert |Raw("DELETE")| == 6 && |Raw("OPTIONS")| == 7;
    assert Raw("GET")[0] == 71 && Raw("PUT")[0] == 80 && Raw("POST")[0] == 80 && Raw("HEAD")[0] == 72;
  }

  /** The request built from a header list is the one it spells. */
  lemma BuiltSpelled(hs: Headers, body: bytes)
    ensures Spells(hs, body, BuildRequest(NO_REQUEST, hs).(body := body))
  {
    hide ApplyHeaders, MethodOf, Raw, LastValue, IsPath, IsQuery, FieldsSpelled, VerbSpelled;
    AppliedCollected(hs);
    VerbOf(ApplyHeaders(NO_REQUEST, hs).methodStr);
  }

  // ----- The relation leaves nothing open -----

  lemma {:induction false} LastExists(hs: Headers, name: bytes) returns (i: nat)
    requires !Unnamed(hs, name)
    ensures LastNamed(hs, name, i)
    decreases |hs|
  {
    var n := |hs| - 1;
    if hs[n].name == name {
      i := n;
    } else {
      i := LastExists(hs[..n], name);
    }
  }

  lemma {:induction false} LastSettingExists(hs: Headers, field: bytes) returns (i: nat)
    requires !NeverSet(hs, field)
    ensures LastSetting(hs, field, i)
    decreases |hs|
  {
    hide Sets;
    var n := |hs| - 1;
    if Sets(hs[n], field) {
      i := n;
    } else {
      i := LastSettingExists(hs[..n], field);
    }
  }

  lemma {:induction false} LastQueryExists(hs: Headers) returns (i: nat)
    requires exists j :: 0 <= j < |hs| && HasQuery(hs[j])
    ensures LastWithQuery(hs, i)
    decreases |hs|
  {
    hide HasQuery;
    var n := |hs| - 1;
    if HasQuery(hs[n]) {
      i := n;
    } else {
      var j :| 0 <= j < |hs| && HasQuery(hs[j]);
      assert hs[..n][j] == hs[j];
      i := LastQueryExists(hs[..n]);
    }
  }

  lemma SameValue(hs: Headers, name: bytes, v: bytes, w: bytes)
    requires LastValue(hs, name, v) && LastValue(hs, name, w)
    ensures v == w
  {
    if !Unnamed(hs, name) {
      var i := LastExists(hs, name);
    }
  }

  lemma SameFields(hs: Headers, a: map<bytes, bytes>, b: map<bytes, bytes>)
    requires FieldsSpelled(a, hs) && FieldsSpelled(b, hs)
    ensures a == b
  {
    hide Sets, NeverSet, LastSetting;
    assert forall n: bytes :: n in a <==> n in b;
    forall n: bytes | n in a
      ensures a[n] == b[n]
    {
      var i := LastSettingExists(hs, n);
    }
    assert a.Keys == b.Keys;
  }

  lemma SameVerb(text: bytes, v: Method, w: Method)
    requires VerbSpelled(v, text) && VerbSpelled(w, text)
    ensures v == w
  {
    hide Raw;
    match v {
      case UNKNOWN => match w { case _ => }
      case _ =>
    }
  }

  /** A header list and a body spell one request only. */
  lemma SpelledUnique(hs: Headers, body: bytes, q: Request, r: Request)
    requires Spells(hs, body, q) && Spells(hs, body, r)
    ensures q == r
  {
    hide Raw, LastValue, IsPath, IsQuery, FieldsSpelled, VerbSpelled, HasQuery;
    SameValue(hs, Raw(":method"), q.methodStr, r.methodStr);
    SameVerb(q.methodStr, q.verb, r.verb);
    SameValue(hs, Raw(":path"), q.uri, r.uri);
    SamePath(q.uri, q.path, r.path);
    if exists j :: 0 <= j < |hs| && HasQuery(hs[j]) {
      var i := LastQueryExists(hs);
      SameQuery(hs[i].value, q.query, r.query);
    }
    SameFields(hs, q.headers, r.headers);
  }
}
