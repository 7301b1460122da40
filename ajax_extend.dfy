/** Model of the request de-duplication in o2.ajax.extend.js: a request is identified by a
    token made of its URL and parameters, and a per-method cache keeps the active request
    under its token. The transport (`o2.Ajax.get` and `post`) is not part of this model: a
    call to it is modelled as a fresh request handle, and the number of calls is counted. */
module AjaxExtend {
  import opened Common
  import opened Supervision

  const Delimiter: char := ','

  /** The own parameters in enumeration order, flattened to `name, value, name, value, ...`. */
  function Flatten(params: seq<(string, string)>): (r: seq<string>)
    ensures |r| == 2 * |params|
    ensures forall i :: 0 <= i < |params| ==> r[2 * i] == params[i].0 && r[2 * i + 1] == params[i].1
  {
    if params == [] then [] else [params[0].0, params[0].1] + Flatten(params[1..])
  }

  /** The token of a request: the URL, then each parameter name and value. */
  function Token(url: string, params: seq<(string, string)>): string {
    Join([url] + Flatten(params), Delimiter)
  }

  /** `prepareToken(url, parameters)`: push the URL, then each own name and value, and join. */
  method PrepareToken(url: string, params: seq<(string, string)>) returns (token: string)
    ensures token == Token(url, params)
  {
    var ar := [url];
    var i := 0;
    while i < |params|
      invariant 0 <= i <= |params|
      invariant ar == [url] + Flatten(params[..i])
    {
      FlattenSnoc(params[..i], params[i]);
      assert params[..i + 1] == params[..i] + [params[i]];
      ar := ar + [params[i].0];
      ar := ar + [params[i].1];
      i := i + 1;
    }
    assert params[..i] == params;
    token := Join(ar, Delimiter);
  }

  lemma {:induction false} FlattenSnoc(params: seq<(string, string)>, p: (string, string))
    ensures Flatten(params + [p]) == Flatten(params) + [p.0, p.1]
  {
    if params != [] {
      FlattenSnoc(params[1..], p);
      assert (params + [p])[1..] == params[1..] + [p];
    }
  }

  lemma {:induction false} FlattenInjective(p: seq<(string, string)>, q: seq<(string, string)>)
    requires Flatten(p) == Flatten(q)
    ensures p == q
  {
    assert |p| == |q|;
    forall i | 0 <= i < |p| ensures p[i] == q[i] {
      assert Flatten(p)[2 * i] == Flatten(q)[2 * i];
      assert Flatten(p)[2 * i + 1] == Flatten(q)[2 * i + 1];
    }
  }

  predicate DelimiterFree(url: string, params: seq<(string, string)>) {
    Lacks(url, Delimiter) && forall i :: 0 <= i < |params| ==> Lacks(params[i].0, Delimiter) && Lacks(params[i].1, Delimiter)
  }

  /** Two requests share a token only if they have the same URL and parameters, provided no
      URL, name or value contains a comma. */
  lemma TokenInjective(url1: string, params1: seq<(string, string)>, url2: string, params2: seq<(string, string)>)
    requires DelimiterFree(url1, params1) && DelimiterFree(url2, params2)
    requires Token(url1, params1) == Token(url2, params2)
    ensures url1 == url2 && params1 == params2
  {
    var parts1 := [url1] + Flatten(params1);
    var parts2 := [url2] + Flatten(params2);
    forall i | 0 <= i < |parts1| ensures Lacks(parts1[i], Delimiter) {
      if i > 0 {
        assert parts1[i] == Flatten(params1)[i - 1];
        var j := (i - 1) / 2;
        if i - 1 == 2 * j {
          assert Flatten(params1)[2 * j] == params1[j].0;
        } else {
          assert Flatten(params1)[2 * j + 1] == params1[j].1;
        }
      }
    }
    forall i | 0 <= i < |parts2| ensures Lacks(parts2[i], Delimiter) {
      if i > 0 {
        assert parts2[i] == Flatten(params2)[i - 1];
        var j := (i - 1) / 2;
        if i - 1 == 2 * j {
          assert Flatten(params2)[2 * j] == params2[j].0;
        } else {
          assert Flatten(params2)[2 * j + 1] == params2[j].1;
        }
      }
    }
    SplitJoin(parts1, Delimiter);
    SplitJoin(parts2, Delimiter);
    assert parts1 == parts2;
    assert parts1[1..] == Flatten(params1) && parts2[1..] == Flatten(params2);
    FlattenInjective(params1, params2);
  }

  /** With commas, distinct requests collide: `'a,b,c'` with no parameters and `'a'` with
      `{b: 'c'}` share a cache slot. */
  lemma TokenCollision()
    ensures Token("a,b,c", []) == Token("a", [("b", "c")])
  {
    assert Flatten([("b", "c")]) == ["b", "c"];
    assert Join(["c"], Delimiter) == "c";
    assert Join(["b", "c"], Delimiter) == "b,c";
    assert Join(["a", "b", "c"], Delimiter) == "a,b,c";
  }

  /** The two module-level caches of o2.ajax.extend.js and the transport calls made so far. */
  class RequestCaches {
    var getCache: map<string, Xhr>
    var postCache: map<string, Xhr>
    var getCalls: nat
    var postCalls: nat

    constructor()
      ensures getCache == map[] && postCache == map[] && getCalls == 0 && postCalls == 0
    {
      getCache := map[];
      postCache := map[];
      getCalls := 0;
      postCalls := 0;
    }

    /** The cached request for `token` is still in flight. */
    predicate Active(cache: map<string, Xhr>, token: string)
      reads set t | t in cache :: cache[t]
    {
      token in cache && !cache[token].isComplete
    }

    /** `getSingle`: an active request under the same token is returned without calling
        `get`; otherwise the stale entry is dropped, `get` is called once, and its request is
        stored and returned. The POST cache is not touched. */
    method GetSingle(url: string, params: seq<(string, string)>) returns (request: Xhr)
      modifies this
      ensures var token := Token(url, params);
        if Active(old(getCache), token)
        then request == old(getCache)[token] && getCache == old(getCache) && getCalls == old(getCalls)
        else fresh(request) && !request.isComplete && getCache == old(getCache)[token := request]
             && getCalls == old(getCalls) + 1
      ensures postCache == old(postCache) && postCalls == old(postCalls)
    {
      var token := PrepareToken(url, params);
      if token in getCache && !getCache[token].isComplete {
        return getCache[token];
      }
      getCache := getCache - {token};
      request := new Xhr();
      getCalls := getCalls + 1;
      getCache := getCache[token := request];
    }

    /** `postSingle`: the same rule on the POST cache; nothing is returned on either path. */
    method PostSingle(url: string, params: seq<(string, string)>)
      modifies this
      ensures var token := Token(url, params);
        if Active(old(postCache), token)
        then postCache == old(postCache) && postCalls == old(postCalls)
        else token in postCache && fresh(postCache[token]) && !postCache[token].isComplete
             && postCache == old(postCache)[token := postCache[token]] && postCalls == old(postCalls) + 1
      ensures getCache == old(getCache) && getCalls == old(getCalls)
    {
      var token := PrepareToken(url, params);
      if token in postCache && !postCache[token].isComplete {
        return;
      }
      postCache := postCache - {token};
      var request := new Xhr();
      postCalls := postCalls + 1;
      postCache := postCache[token := request];
    }
  }
}
