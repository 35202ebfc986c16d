/**
 * The URL shortener: a store of two maps, URL to key and key to URL, kept
 * mutual inverses; `/shorten` hands out a fresh random key for a new URL
 * (or the key it already has) and `/go/<key>` redirects to the stored URL.
 *
 * The store's mutex makes each handler's critical section one atomic step:
 * a method of Store. The numbers `rand.Intn` draws are a parameter.
 */
module UrlShortener {
  import opened GoBase

  const Letters := "abcdefghijklmnopqrstuvwxyzABCDEFGHIJKLMNOPQRSTUVWXYZ0123456789"

  /** The length of the keys `shortenHandler` asks `generateKey` for. */
  const KeyLength := 10

  /** The draws `rand.Intn(len(letters))` may return. */
  predicate Draws(rolls: seq<nat>) {
    forall i :: 0 <= i < |rolls| ==> rolls[i] < |Letters|
  }

  /** The key `generateKey` makes from its draws. */
  function KeyOf(rolls: seq<nat>): (key: string)
    requires Draws(rolls)
    ensures |key| == |rolls| && forall i :: 0 <= i < |key| ==> key[i] in Letters
  {
    seq(|rolls|, i requires 0 <= i < |rolls| => Letters[rolls[i]])
  }

  /** `generateKey(n)`, with `rolls` the n numbers `rand.Intn` returns. */
  method GenerateKey(n: nat, rolls: seq<nat>) returns (key: string)
    requires |rolls| == n && Draws(rolls)
    ensures |key| == n && forall i :: 0 <= i < n ==> key[i] == Letters[rolls[i]]
  {
    var b := new char[n];
    for i := 0 to n
      modifies b
      invariant forall j :: 0 <= j < i ==> b[j] == Letters[rolls[j]]
    {
      b[i] := Letters[rolls[i]];
    }
    key := b[..];
  }

  predicate IsKey(k: string) {
    |k| == KeyLength && forall i :: 0 <= i < |k| ==> k[i] in Letters
  }

  /** The two maps are mutual inverses. */
  ghost predicate Inverse(urlToKey: map<string, string>, keyToURL: map<string, string>) {
    (forall u :: u in urlToKey ==> urlToKey[u] in keyToURL && keyToURL[urlToKey[u]] == u) &&
    (forall k :: k in keyToURL ==> keyToURL[k] in urlToKey && urlToKey[keyToURL[k]] == k)
  }

  /** Adding a new URL under an unused key, to both maps together, keeps them inverses. */
  lemma InverseExtend(urlToKey: map<string, string>, keyToURL: map<string, string>, url: string, key: string)
    requires Inverse(urlToKey, keyToURL) && url !in urlToKey && key !in keyToURL
    ensures Inverse(urlToKey[url := key], keyToURL[key := url])
  {
  }

  /** Updating only one side breaks the invariant: both maps must change together. */
  lemma OneSidedBreaks(urlToKey: map<string, string>, keyToURL: map<string, string>, url: string, key: string)
    requires Inverse(urlToKey, keyToURL) && url !in urlToKey
    ensures !Inverse(urlToKey[url := key], keyToURL)
  {
    var u2k := urlToKey[url := key];
    assert url in u2k && u2k[url] == key;
    if key in keyToURL {
      assert keyToURL[key] in urlToKey && keyToURL[key] != url;
    }
  }

  /** Following a URL's key leads back to the URL, and a key's URL has that key. */
  lemma RoundTrip(urlToKey: map<string, string>, keyToURL: map<string, string>, url: string)
    requires Inverse(urlToKey, keyToURL) && url in urlToKey
    ensures urlToKey[url] in keyToURL && keyToURL[urlToKey[url]] == url
  {
  }

  /** Under the invariant no two URLs share a key. */
  lemma KeysUnique(urlToKey: map<string, string>, keyToURL: map<string, string>, u: string, v: string)
    requires Inverse(urlToKey, keyToURL) && u in urlToKey && v in urlToKey && urlToKey[u] == urlToKey[v]
    ensures u == v
  {
    RoundTrip(urlToKey, keyToURL, u);
    RoundTrip(urlToKey, keyToURL, v);
  }

  datatype Response =
    | MethodNotAllowed
    | BadRequest(message: string)
    | Shortened(url: string, key: string)
    | Found(location: string)
    | NotFound(message: string)

  /** Some attempt from `from` on draws a key the store does not use yet. */
  predicate SomeUnused(attempts: seq<seq<nat>>, keyToURL: map<string, string>, from: nat) {
    exists i :: from <= i < |attempts| && |attempts[i]| == KeyLength && Draws(attempts[i]) && KeyOf(attempts[i]) !in keyToURL
  }

  /** The index of the first attempt that draws an unused key: the one the retry loop keeps. */
  function FirstUnused(attempts: seq<seq<nat>>, keyToURL: map<string, string>, from: nat): (a: nat)
    requires from <= |attempts| && SomeUnused(attempts, keyToURL, from)
    requires forall i :: from <= i < |attempts| ==> |attempts[i]| == KeyLength && Draws(attempts[i])
    ensures from <= a < |attempts| && KeyOf(attempts[a]) !in keyToURL
    ensures forall i :: from <= i < a ==> KeyOf(attempts[i]) in keyToURL
    decreases |attempts| - from
  {
    if KeyOf(attempts[from]) !in keyToURL then from
    else FirstUnused(attempts, keyToURL, from + 1)
  }

  class Store {
    var urlToKey: map<string, string>
    var keyToURL: map<string, string>

    /** The maps are inverses, no URL is empty and every key is KeyLength letters drawn from Letters. */
    ghost predicate Valid()
      reads this
    {
      Inverse(urlToKey, keyToURL) && "" !in urlToKey && forall k :: k in keyToURL ==> IsKey(k)
    }

    /** `newStore`. */
    constructor ()
      ensures urlToKey == map[] && keyToURL == map[] && Valid()
    {
      urlToKey, keyToURL := map[], map[];
    }

    /**
     * `shortenHandler`: `httpMethod` is the request's method and `body` the
     * `url` field of the decoded JSON body, None when it does not decode.
     * `attempts` are the draws of the successive `generateKey(10)` calls of
     * the retry loop, which some attempt ends.
     */
    method Shorten(httpMethod: string, body: Option<string>, attempts: seq<seq<nat>>) returns (r: Response)
      requires Valid()
      requires forall i :: 0 <= i < |attempts| ==> |attempts[i]| == KeyLength && Draws(attempts[i])
      requires SomeUnused(attempts, keyToURL, 0)
      modifies this
      ensures Valid()
      ensures httpMethod != "POST" ==> r == MethodNotAllowed && unchanged(this)
      ensures httpMethod == "POST" && (body.None? || body.value == "") ==>
        r == BadRequest("invalid request") && unchanged(this)
      ensures httpMethod == "POST" && body.Some? && body.value in old(urlToKey) ==>
        r == Shortened(body.value, old(urlToKey)[body.value]) && unchanged(this)
      ensures httpMethod == "POST" && body.Some? && body.value != "" && body.value !in old(urlToKey) ==>
        var key := KeyOf(attempts[FirstUnused(attempts, old(keyToURL), 0)]);
        r == Shortened(body.value, key) && key !in old(keyToURL) &&
        urlToKey == old(urlToKey)[body.value := key] && keyToURL == old(keyToURL)[key := body.value]
    {
      if httpMethod != "POST" {
        return MethodNotAllowed;
      }
      if body.None? || body.value == "" {
        return BadRequest("invalid request");
      }
      var url := body.value;
      if url in urlToKey {
        return Shortened(url, urlToKey[url]);
      }
      var a, key := NewKey(keyToURL, attempts);
      InverseExtend(urlToKey, keyToURL, url, key);
      urlToKey := urlToKey[url := key];
      keyToURL := keyToURL[key := url];
      r := Shortened(url, key);
    }

    /** `redirectHandler` on a path the mux routed here, so one that starts with "/go/". */
    method Redirect(httpMethod: string, path: string) returns (r: Response)
      requires |path| >= 4 && path[..4] == "/go/"
      ensures httpMethod != "GET" ==> r == MethodNotAllowed
      ensures httpMethod == "GET" && path[4..] in keyToURL ==> r == Found(keyToURL[path[4..]])
      ensures httpMethod == "GET" && path[4..] !in keyToURL ==> r == NotFound("key not found")
    {
      if httpMethod != "GET" {
        return MethodNotAllowed;
      }
      var key := path[4..];
      if key !in keyToURL {
        return NotFound("key not found");
      }
      r := Found(keyToURL[key]);
    }
  }

  /** The retry loop of `shortenHandler`: draw keys until one is not in keyToURL. */
  method NewKey(keyToURL: map<string, string>, attempts: seq<seq<nat>>) returns (a: nat, key: string)
    requires forall i :: 0 <= i < |attempts| ==> |attempts[i]| == KeyLength && Draws(attempts[i])
    requires SomeUnused(attempts, keyToURL, 0)
    ensures a == FirstUnused(attempts, keyToURL, 0) && key == KeyOf(attempts[a]) && key !in keyToURL
  {
    a := 0;
    key := GenerateKey(KeyLength, attempts[a]);
    assert key == KeyOf(attempts[a]);
    while key in keyToURL
      invariant a < |attempts| && SomeUnused(attempts, keyToURL, a)
      invariant key == KeyOf(attempts[a])
      invariant forall i :: 0 <= i < a ==> KeyOf(attempts[i]) in keyToURL
      decreases |attempts| - a
    {
      a := a + 1;
      key := GenerateKey(KeyLength, attempts[a]);
      assert key == KeyOf(attempts[a]);
    }
    FirstUnusedIs(attempts, keyToURL, 0, a);
  }

  /** The first attempt at or after `from` with an unused key is the one the loop stopped at. */
  lemma {:induction false} FirstUnusedIs(attempts: seq<seq<nat>>, keyToURL: map<string, string>, from: nat, a: nat)
    requires from <= a < |attempts| && SomeUnused(attempts, keyToURL, from)
    requires forall i :: from <= i < |attempts| ==> |attempts[i]| == KeyLength && Draws(attempts[i])
    requires KeyOf(attempts[a]) !in keyToURL && forall i :: from <= i < a ==> KeyOf(attempts[i]) in keyToURL
    ensures FirstUnused(attempts, keyToURL, from) == a
    decreases a - from
  {
    if from < a {
      FirstUnusedIs(attempts, keyToURL, from + 1, a);
    }
  }
}
