/** `getCookie` of the task list page: the value of a named cookie in a
    `document.cookie` string of the shape `k1=v1; k2=v2` (the Cookie header
    of section 4.2.1 of RFC 6265), found with the regular expression
    `(^| )NAME=([^;]+)`, and the initial authenticated flag derived from it. */
module Cookies {
  import opened Wrappers

  /** The cookie written by a successful login or signup. */
  const AuthCookie: string := "auth=true; max-age=86400; path=/"

  /** `name=` starts at `k`, at the beginning of the string or right after a
      space, and at least one character other than ';' follows the '='. */
  predicate KeyAt(s: string, name: string, k: int) {
    && 0 <= k && k + |name| + 1 < |s|
    && (k == 0 || s[k - 1] == ' ')
    && s[k..k + |name|] == name && s[k + |name|] == '='
    && s[k + |name| + 1] != ';'
  }

  /** `k` is the first key position in `s`. */
  ghost predicate FirstKey(s: string, name: string, k: int) {
    KeyAt(s, name, k) && forall j :: 0 <= j < k ==> !KeyAt(s, name, j)
  }

  /** The first key position at or after `k`, if any. */
  function FindKey(s: string, name: string, k: nat): (r: Option<nat>)
    decreases |s| - k
    ensures r.Some? ==> k <= r.value && KeyAt(s, name, r.value)
    ensures forall j :: k <= j && (r.None? || j < r.value) ==> !KeyAt(s, name, j)
  {
    if k + |name| + 1 >= |s| then None
    else if KeyAt(s, name, k) then Some(k)
    else FindKey(s, name, k + 1)
  }

  /** The longest run of characters other than ';' starting at `j`: what the
      greedy `[^;]+` captures. */
  function ValueRun(s: string, j: nat): (v: string)
    requires j <= |s|
    decreases |s| - j
    ensures j + |v| <= |s| && v == s[j..j + |v|]
    ensures ';' !in v
    ensures j + |v| == |s| || s[j + |v|] == ';'
  {
    if j == |s| || s[j] == ';' then [] else [s[j]] + ValueRun(s, j + 1)
  }

  /** The run is the only ';'-free stretch starting at `j` that ends at a
      ';' or at the end of the string. */
  lemma ValueRunUnique(s: string, j: nat, v: string)
    requires j + |v| <= |s| && v == s[j..j + |v|]
    requires ';' !in v
    requires j + |v| == |s| || s[j + |v|] == ';'
    ensures ValueRun(s, j) == v
  {
  }

  /** The regular expression's leftmost match is the one with the smallest
      key position: the match at position 0 tries `^` before the space, and
      a key after a space at `k` is a match starting at `k - 1`. The value
      is group 2 of that match. */
  function GetCookie(cookie: string, name: string): (r: Option<string>)
    ensures r.Some? <==> exists k :: KeyAt(cookie, name, k)
    ensures r.Some? ==> exists k :: FirstKey(cookie, name, k) && r.value == ValueRun(cookie, k + |name| + 1)
    ensures r.Some? ==> r.value != [] && ';' !in r.value
  {
    var found := FindKey(cookie, name, 0);
    if found.None? then None
    else
      var k := found.value;
      assert FirstKey(cookie, name, k);
      Some(ValueRun(cookie, k + |name| + 1))
  }

  /** `getCookie("auth") ? true : false`: a found value is never empty, so
      the flag is set exactly when an `auth` key with a value is present. */
  function InitialAuthenticated(cookie: string): (b: bool)
    ensures b <==> exists k :: KeyAt(cookie, "auth", k)
  {
    GetCookie(cookie, "auth").Some?
  }

  /** A pair `name=value` at the head of the cookie string is found, with
      its whole value, whatever follows the ';' after it. */
  lemma PairRoundTrip(name: string, value: string, rest: string)
    requires value != [] && ';' !in value
    requires rest == [] || rest[0] == ';'
    ensures GetCookie(name + "=" + value + rest, name) == Some(value)
  {
    var s := name + "=" + value + rest;
    var j := |name| + 1;
    assert KeyAt(s, name, 0) by {
      assert s[..|name|] == name;
      assert s[j] == value[0];
    }
    assert s[j..j + |value|] == value;
    ValueRunUnique(s, j, value);
  }

  /** After a successful login or signup, the cookie the page reads back
      on its next load makes the page start authenticated. */
  lemma AuthCookieAuthenticates()
    ensures GetCookie("auth=true", "auth") == Some("true")
    ensures InitialAuthenticated("auth=true")
  {
    var s := "auth" + "=" + "true" + "";
    assert |s| == 9;
    assert forall k :: 0 <= k < 9 ==> s[k] == "auth=true"[k];
    assert s == "auth=true";
    PairRoundTrip("auth", "true", "");
    assert GetCookie(s, "auth") == Some("true");
  }

  /** The written cookie, attributes included, also reads back as `true`. */
  lemma AuthCookieReadsTrue()
    ensures GetCookie(AuthCookie, "auth") == Some("true")
  {
    var s := "auth" + "=" + "true" + "; max-age=86400; path=/";
    assert |s| == |AuthCookie|;
    assert forall k :: 0 <= k < |s| ==> s[k] == AuthCookie[k];
    assert s == AuthCookie;
    PairRoundTrip("auth", "true", "; max-age=86400; path=/");
    assert GetCookie(s, "auth") == Some("true");
  }

  /** Without a cookie string the page starts unauthenticated, and a key
      only counts at the start or after a space: `xauth=true` is not it. */
  lemma NotAuthenticated()
    ensures !InitialAuthenticated("")
    ensures !InitialAuthenticated("xauth=true")
  {
  }
}
