/** `load_cookies_to_driver`: every record of the cookie file becomes the dictionary
    Selenium's `add_cookie` takes; a record whose translation or whose `add_cookie`
    raises is logged and skipped. Which calls of `add_cookie` complete is the oracle
    `accepted`, the indices of the records whose dictionary the browser takes; the
    dictionary tried for a record is fixed by the record, so this answers each call
    on its own. */
module Cookies {
  import opened Wrappers
  import opened Json
  import opened PyInt

  /** A JSON object of the cookie file. */
  type Record = map<string, Value>

  /** The domain a record without a `domain` key gets. */
  const DefaultDomain: string := ".tiktok.com"

  /** The dictionary handed to `add_cookie`, one field per key it can have: the three
      keys it always has, and the optional ones as `Some` exactly when present. */
  datatype Cookie = Cookie(
    name: Value, value: Value, domain: Value,
    path: Option<Value>, expiry: Option<int>, secure: Option<Value>, httpOnly: Option<Value>)

  /** Every key a cookie dictionary can have. */
  const CookieKeys: set<string> := {"name", "value", "domain", "path", "expiry", "secure", "httpOnly"}

  /** `cookie.get(key)`: JSON null for a missing key. */
  function Get(record: Record, key: string): Value {
    if key in record then record[key] else JNull
  }

  /** `record[key]` when the record has that key. */
  function Lookup(record: Record, key: string): Option<Value> {
    if key in record then Some(record[key]) else None
  }

  /** The dictionary built for one record of the file; `None` when building it raises,
      which only `int(cookie['expirationDate'])` can do. The translation fails exactly
      on an expiration date `int()` refuses. When it succeeds, name and value are null
      when missing, the domain is the default only when its key is absent, each
      optional key is there exactly when the record has its source key, with the
      record's value, and the expiration date becomes the integer `int()` makes of it. */
  function Translate(record: Record): (r: Option<Cookie>)
    ensures r.None? <==> "expirationDate" in record && IntOf(record["expirationDate"]).None?
    ensures r.Some? ==> var c := r.value;
      && c.name == (if "name" in record then record["name"] else JNull)
      && c.value == (if "value" in record then record["value"] else JNull)
      && c.domain == (if "domain" in record then record["domain"] else JStr(DefaultDomain))
      && (c.path.Some? <==> "path" in record) && (c.path.Some? ==> c.path.value == record["path"])
      && (c.secure.Some? <==> "secure" in record) && (c.secure.Some? ==> c.secure.value == record["secure"])
      && (c.httpOnly.Some? <==> "httpOnly" in record) && (c.httpOnly.Some? ==> c.httpOnly.value == record["httpOnly"])
      && (c.expiry.Some? <==> "expirationDate" in record)
      && (c.expiry.Some? ==> IntOf(record["expirationDate"]) == Some(c.expiry.value))
  {
    var expiry := if "expirationDate" in record then IntOf(record["expirationDate"]) else None;
    if "expirationDate" in record && expiry.None? then None
    else Some(Cookie(
      Get(record, "name"), Get(record, "value"),
      if "domain" in record then record["domain"] else JStr(DefaultDomain),
      Lookup(record, "path"), expiry, Lookup(record, "secure"), Lookup(record, "httpOnly")))
  }

  /** The cookie as the dictionary Selenium receives. */
  function AsDict(c: Cookie): map<string, Value> {
    var base := map["name" := c.name, "value" := c.value, "domain" := c.domain];
    var withPath := if c.path.Some? then base["path" := c.path.value] else base;
    var withExpiry := if c.expiry.Some? then withPath["expiry" := JInt(c.expiry.value)] else withPath;
    var withSecure := if c.secure.Some? then withExpiry["secure" := c.secure.value] else withExpiry;
    if c.httpOnly.Some? then withSecure["httpOnly" := c.httpOnly.value] else withSecure
  }

  /** The dictionary always has name, value and domain, and an optional key exactly
      when the cookie has that field. */
  lemma AsDictShape(c: Cookie)
    ensures var d := AsDict(c);
      && d.Keys <= CookieKeys
      && "name" in d && "value" in d && "domain" in d
      && ("path" in d <==> c.path.Some?)
      && ("expiry" in d <==> c.expiry.Some?)
      && ("secure" in d <==> c.secure.Some?)
      && ("httpOnly" in d <==> c.httpOnly.Some?)
  {
  }

  /** A browser export's float expiration date is truncated toward zero. */
  lemma ExpiryTruncated()
    ensures Translate(map["name" := JStr("sid"), "expirationDate" := JFloat(1700000000.75)])
         == Some(Cookie(JStr("sid"), JNull, JStr(DefaultDomain), None, Some(1700000000), None, None))
  {
  }

  /** What the record at index `i` contributes to the browser: its dictionary when the
      record is an object, the translation succeeds and the `add_cookie` call for it
      completes; nothing otherwise. */
  function AddedBy(i: nat, cookie: Value, accepted: set<nat>): (added: seq<Cookie>)
    ensures |added| <= 1
  {
    if cookie.JObject? then
      match Translate(cookie.fields)
      case Some(d) => if i in accepted then [d] else []
      case None => []
    else []
  }

  /** What the records `cookies` give the browser, in order, when the first of them is
      the record at index `from` of the file. */
  function AddedFrom(cookies: seq<Value>, from: nat, accepted: set<nat>): seq<Cookie> {
    if cookies == [] then []
    else AddedFrom(cookies[..|cookies| - 1], from, accepted) + AddedBy(from + |cookies| - 1, cookies[|cookies| - 1], accepted)
  }

  /** The cookies the browser holds after the loop, in file order. */
  function Added(cookies: seq<Value>, accepted: set<nat>): seq<Cookie> {
    AddedFrom(cookies, 0, accepted)
  }

  /** Records are independent: a failing record is skipped and affects nothing the
      others contribute. */
  lemma {:induction false} AddedAppend(a: seq<Value>, b: seq<Value>, from: nat, accepted: set<nat>)
    ensures AddedFrom(a + b, from, accepted) == AddedFrom(a, from, accepted) + AddedFrom(b, from + |a|, accepted)
    decreases |b|
  {
    if b == [] {
      assert a + b == a;
    } else {
      var init := b[..|b| - 1];
      assert (a + b)[..|a + b| - 1] == a + init;
      assert (a + b)[|a + b| - 1] == b[|b| - 1];
      assert from + |a + b| - 1 == from + |a| + |b| - 1;
      AddedAppend(a, init, from, accepted);
    }
  }

  /** Every cookie the browser holds was accepted and is the translation of some object
      of the file, and there are never more of them than records. */
  lemma {:induction false} AddedMembers(cookies: seq<Value>, accepted: set<nat>)
    ensures |Added(cookies, accepted)| <= |cookies|
    ensures forall d :: d in Added(cookies, accepted) ==>
      exists i :: 0 <= i < |cookies| && cookies[i].JObject? && Translate(cookies[i].fields) == Some(d) && i in accepted
  {
    if cookies != [] {
      var init := cookies[..|cookies| - 1];
      AddedMembers(init, accepted);
      forall d | d in Added(cookies, accepted)
        ensures exists i :: 0 <= i < |cookies| && cookies[i].JObject? && Translate(cookies[i].fields) == Some(d) && i in accepted
      {
        if d in Added(init, accepted) {
          var i :| 0 <= i < |init| && init[i].JObject? && Translate(init[i].fields) == Some(d) && i in accepted;
          assert cookies[i] == init[i];
        } else {
          assert d in AddedBy(|cookies| - 1, cookies[|cookies| - 1], accepted);
        }
      }
    }
  }

  /** The body of the `try`: translate one record and hand it to the browser.
      `added` is the dictionary the browser took, `None` on the path to the warning. */
  method AddCookie(i: nat, cookie: Value, accepted: set<nat>) returns (added: Option<Cookie>)
    ensures added.None? <==> AddedBy(i, cookie, accepted) == []
    ensures added.Some? ==> AddedBy(i, cookie, accepted) == [added.value]
  {
    if !cookie.JObject? {
      return None;
    }
    var d := Translate(cookie.fields);
    if d.Some? && i in accepted {
      return d;
    }
    return None;
  }

  /** The indices of the records a warning is logged for, in file order. */
  function Rejected(cookies: seq<Value>, accepted: set<nat>): seq<nat> {
    if cookies == [] then []
    else
      var n := |cookies| - 1;
      Rejected(cookies[..n], accepted) + (if AddedBy(n, cookies[n], accepted) == [] then [n] else [])
  }

  /** Each record either reaches the browser or is warned about, never both: the
      warnings name exactly the records that contribute nothing. */
  lemma {:induction false} RejectedSpec(cookies: seq<Value>, accepted: set<nat>)
    ensures |Added(cookies, accepted)| + |Rejected(cookies, accepted)| == |cookies|
    ensures forall i: nat :: i in Rejected(cookies, accepted) <==> i < |cookies| && AddedBy(i, cookies[i], accepted) == []
  {
    if cookies != [] {
      var n := |cookies| - 1;
      var init := cookies[..n];
      RejectedSpec(init, accepted);
      assert forall i :: 0 <= i < n ==> init[i] == cookies[i];
    }
  }

  /** The loop of `load_cookies_to_driver`, with a record that is not a JSON object
      skipped like any other record that fails. `jar` is what the browser was given
      successfully, `failed` the indices of the records a warning is logged for. */
  method LoadCookiesToDriver(cookies: seq<Value>, accepted: set<nat>)
    returns (jar: seq<Cookie>, failed: seq<nat>)
    ensures jar == Added(cookies, accepted)
    ensures failed == Rejected(cookies, accepted)
  {
    jar, failed := [], [];
    for n := 0 to |cookies|
      invariant jar == Added(cookies[..n], accepted)
      invariant failed == Rejected(cookies[..n], accepted)
    {
      assert cookies[..n + 1][..n] == cookies[..n];
      var added := AddCookie(n, cookies[n], accepted);
      if added.Some? {
        jar := jar + [added.value];
      } else {
        failed := failed + [n];
      }
    }
    assert cookies[..|cookies|] == cookies;
  }

  /** How the loop as written ends: it either runs through the file or leaves by an
      exception after the index `at`, with the cookies added before it. */
  datatype LoadOutcome = Loaded(jar: seq<Cookie>) | Aborted(jar: seq<Cookie>, at: nat)

  /** The loop as written. A record that is not a JSON object has no `get`: the call
      raises inside the `try`, and the handler's own `cookie.get('name')` raises again,
      so the exception leaves `load_cookies_to_driver`. */
  function LoadAsWritten(cookies: seq<Value>, accepted: set<nat>): (outcome: LoadOutcome)
    ensures |outcome.jar| <= |cookies|
    ensures outcome.Loaded? <==> forall i :: 0 <= i < |cookies| ==> cookies[i].JObject?
    ensures outcome.Aborted? ==>
      && outcome.at < |cookies| && !cookies[outcome.at].JObject?
      && forall i :: 0 <= i < outcome.at ==> cookies[i].JObject?
  {
    if cookies == [] then Loaded([])
    else
      var n := |cookies| - 1;
      var last := cookies[n];
      assert forall i :: 0 <= i < n ==> cookies[..n][i] == cookies[i];
      match LoadAsWritten(cookies[..n], accepted)
      case Aborted(jar, at) => Aborted(jar, at)
      case Loaded(jar) => if last.JObject? then Loaded(jar + AddedBy(n, last, accepted)) else Aborted(jar, n)
  }

  /** On a file of objects only, the loop as written and the corrected loop agree. */
  lemma {:induction false} AsWrittenOnObjects(cookies: seq<Value>, accepted: set<nat>)
    requires forall i :: 0 <= i < |cookies| ==> cookies[i].JObject?
    ensures LoadAsWritten(cookies, accepted) == Loaded(Added(cookies, accepted))
  {
    if cookies != [] {
      var init := cookies[..|cookies| - 1];
      assert forall i :: 0 <= i < |init| ==> init[i] == cookies[i];
      AsWrittenOnObjects(init, accepted);
    }
  }

  /** Once the loop as written has aborted, later records change nothing. */
  lemma {:induction false} AbortedStays(a: seq<Value>, b: seq<Value>, accepted: set<nat>)
    requires LoadAsWritten(a, accepted).Aborted?
    ensures LoadAsWritten(a + b, accepted) == LoadAsWritten(a, accepted)
    decreases |b|
  {
    if b == [] {
      assert a + b == a;
    } else {
      var init := b[..|b| - 1];
      assert (a + b)[..|a + b| - 1] == a + init;
      AbortedStays(a, init, accepted);
    }
  }

  /** The first record that is not an object ends the loop as written: the records
      after it are never added, where the corrected loop adds them. */
  lemma {:induction false} AsWrittenAborts(cookies: seq<Value>, k: nat, accepted: set<nat>)
    requires k < |cookies| && !cookies[k].JObject?
    requires forall i :: 0 <= i < k ==> cookies[i].JObject?
    ensures LoadAsWritten(cookies, accepted) == Aborted(Added(cookies[..k], accepted), k)
  {
    var head := cookies[..k];
    assert forall i :: 0 <= i < k ==> head[i] == cookies[i];
    AsWrittenOnObjects(head, accepted);
    assert cookies[..k + 1][..k] == head;
    assert LoadAsWritten(cookies[..k + 1], accepted) == Aborted(Added(head, accepted), k);
    assert cookies == cookies[..k + 1] + cookies[k + 1..];
    AbortedStays(cookies[..k + 1], cookies[k + 1..], accepted);
  }

  /** A stray string before a valid session cookie: the loop as written adds nothing,
      the corrected loop adds the session cookie. */
  lemma AsWrittenCounterexample()
    ensures var good := map["name" := JStr("sessionid"), "value" := JStr("abc")];
      var cookies := [JStr("x"), JObject(good)];
      var accepted := {0, 1};
      && LoadAsWritten(cookies, accepted) == Aborted([], 0)
      && Added(cookies, accepted) == [Translate(good).value]
  {
    var good := map["name" := JStr("sessionid"), "value" := JStr("abc")];
    var cookies := [JStr("x"), JObject(good)];
    var accepted := {0, 1};
    assert cookies[..1] == [JStr("x")] && cookies[..1][..0] == [];
    AddedAppend([], [JStr("x")], 0, accepted);
  }
}
