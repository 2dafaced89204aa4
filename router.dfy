/**
 * ServeMux of gopher.go: a table from selector patterns to handlers. A pattern that ends
 * in '/' names a subtree and matches every selector it prefixes; any other pattern matches
 * only itself. The longest matching pattern wins.
 */
module Router {
  import opened Wrappers
  import opened Text

  /** Handlers are not run by the model; they are told apart by an id. */
  datatype Handler = NotFoundHandler | AppHandler(id: nat)

  datatype MuxEntry = MuxEntry(explicit: bool, h: Handler, pattern: string)

  /** Handle's panics, returned as errors. */
  datatype HandleError =
    | InvalidPattern(pattern: string)        // "gopher: invalid pattern"
    | NilHandler                             // "gopher: nil handler"
    | MultipleRegistrations(pattern: string) // "gopher: multiple registrations for"

  /** selectorMatch: an empty pattern matches nothing, a '/'-terminated one its subtree, any other only itself. */
  predicate SelectorMatch(pattern: string, selector: string)
  {
    if |pattern| == 0 then false
    else if pattern[|pattern| - 1] != '/' then pattern == selector
    else HasPrefix(selector, pattern)
  }

  /** Every non-empty pattern matches the selector equal to it. */
  lemma PatternMatchesItself(pattern: string)
    requires pattern != ""
    ensures SelectorMatch(pattern, pattern)
  {
  }

  /** Whatever a pattern matches starts with the pattern, so no pattern longer than the selector matches. */
  lemma MatchIsPrefix(pattern: string, selector: string)
    requires SelectorMatch(pattern, selector)
    ensures |pattern| <= |selector| && selector[..|pattern|] == pattern
  {
  }

  /** Two patterns of the same length that match the same selector are the same pattern. */
  lemma MatchesOfSameLength(p: string, q: string, selector: string)
    requires SelectorMatch(p, selector) && SelectorMatch(q, selector) && |p| == |q|
    ensures p == q
  {
    MatchIsPrefix(p, selector);
    MatchIsPrefix(q, selector);
  }

  /** `k` is a registered pattern that matches `selector`, and no matching pattern is longer. */
  predicate IsLongestMatch(m: map<string, MuxEntry>, selector: string, k: string)
  {
    && k in m && SelectorMatch(k, selector)
    && forall k' :: k' in m && SelectorMatch(k', selector) ==> |k'| <= |k|
  }

  /** The most specific pattern is unique. */
  lemma LongestMatchUnique(m: map<string, MuxEntry>, selector: string, k1: string, k2: string)
    requires IsLongestMatch(m, selector, k1) && IsLongestMatch(m, selector, k2)
    ensures k1 == k2
  {
    MatchesOfSameLength(k1, k2, selector);
  }

  /** Some pattern matches exactly when a longest one does. */
  lemma {:induction false} LongestMatchExists(m: map<string, MuxEntry>, selector: string, k: string)
    requires k in m && SelectorMatch(k, selector)
    ensures exists w :: IsLongestMatch(m, selector, w)
    decreases |selector| - |k|
  {
    MatchIsPrefix(k, selector);
    if !IsLongestMatch(m, selector, k) {
      var k' :| k' in m && SelectorMatch(k', selector) && |k'| > |k|;
      MatchIsPrefix(k', selector);
      LongestMatchExists(m, selector, k');
    }
  }

  /** Handle's outcome on a table: the checks in the order the source makes them, then the new table. */
  function Register(m: map<string, MuxEntry>, pattern: string, handler: Option<Handler>)
    : (r: Result<map<string, MuxEntry>, HandleError>)
    ensures r.Failure? <==> pattern == "" || handler.None? || (pattern in m && m[pattern].explicit)
    ensures r.Success? ==>
      && r.value.Keys == m.Keys + {pattern}
      && r.value[pattern] == MuxEntry(true, handler.value, pattern)
      && forall k :: k in m && k != pattern ==> r.value[k] == m[k]
  {
    if pattern == "" then Failure(InvalidPattern(pattern))
    else if handler.None? then Failure(NilHandler)
    else if pattern in m && m[pattern].explicit then Failure(MultipleRegistrations(pattern))
    else Success(m[pattern := MuxEntry(true, handler.value, pattern)])
  }

  /** Every entry is explicit, under a non-empty pattern that is its own key. */
  predicate WellKept(m: map<string, MuxEntry>)
  {
    forall k :: k in m ==> k != "" && m[k].explicit && m[k].pattern == k
  }

  /** Registration keeps the table well kept, so a second registration of any pattern is refused. */
  lemma RegisterKeepsTable(m: map<string, MuxEntry>, pattern: string, handler: Option<Handler>)
    requires WellKept(m)
    ensures Register(m, pattern, handler).Success? ==> WellKept(Register(m, pattern, handler).value)
    ensures pattern in m ==> Register(m, pattern, handler).Failure?
  {
  }

  /** The table a server starts with and the routes of a small site: "/" for the rest, "/images/" for a subtree. */
  lemma RoutingExample(m: map<string, MuxEntry>, root: Handler, images: Handler)
    requires m == map["/" := MuxEntry(true, root, "/"), "/images/" := MuxEntry(true, images, "/images/")]
    ensures IsLongestMatch(m, "/images/cat.gif", "/images/")
    ensures IsLongestMatch(m, "/about", "/")
    ensures !SelectorMatch("/images/", "/images")
  {
    assert "/images/cat.gif"[..8] == "/images/";
    assert "/about"[..1] == "/";
  }

  class ServeMux {
    var m: map<string, MuxEntry>

    /** NewServeMux: an empty table. */
    constructor ()
      ensures m == map[]
    {
      m := map[];
    }

    /** Handle: registers `handler` (None stands for a nil handler) under `pattern`. */
    method Handle(pattern: string, handler: Option<Handler>) returns (err: Option<HandleError>)
      modifies this
      ensures Register(old(m), pattern, handler).Success? ==>
        err.None? && m == Register(old(m), pattern, handler).value
      ensures Register(old(m), pattern, handler).Failure? ==>
        err == Some(Register(old(m), pattern, handler).error) && m == old(m)
    {
      if pattern == "" {
        return Some(InvalidPattern(pattern));
      }
      if handler.None? {
        return Some(NilHandler);
      }
      if pattern in m && m[pattern].explicit {
        return Some(MultipleRegistrations(pattern));
      }
      m := m[pattern := MuxEntry(true, handler.value, pattern)];
      err := None;
    }

    /**
     * match: visits the table in any order and keeps the first match, then any strictly
     * longer one. Whatever the order, the result is the entry of the longest matching pattern.
     */
    method Match(selector: string) returns (found: Option<MuxEntry>)
      ensures found.None? <==> forall k :: k in m ==> !SelectorMatch(k, selector)
      ensures found.Some? ==> exists k :: IsLongestMatch(m, selector, k) && found.value == m[k]
    {
      var keys := m.Keys;
      var n := 0;
      ghost var winner := "";
      found := None;
      while keys != {}
        invariant keys <= m.Keys
        invariant found.None? ==> forall k :: k in m && k !in keys ==> !SelectorMatch(k, selector)
        invariant found.Some? ==>
          && winner in m && SelectorMatch(winner, selector) && n == |winner| && found.value == m[winner]
          && forall k :: k in m && k !in keys && SelectorMatch(k, selector) ==> |k| <= n
        decreases keys
      {
        var k :| k in keys;
        keys := keys - {k};
        if !SelectorMatch(k, selector) {
          continue;
        }
        if found.None? || |k| > n {
          n := |k|;
          found := Some(m[k]);
          winner := k;
        }
      }
      if found.Some? {
        assert IsLongestMatch(m, selector, winner);
      }
    }

    /** handler: the entry of the longest matching pattern, or NotFoundHandler and "" when nothing matches. */
    method HandlerFor(selector: string) returns (h: Handler, pattern: string)
      ensures (forall k :: k in m ==> !SelectorMatch(k, selector)) ==> h == NotFoundHandler && pattern == ""
      ensures (exists k :: k in m && SelectorMatch(k, selector)) ==>
        exists k :: IsLongestMatch(m, selector, k) && h == m[k].h && pattern == m[k].pattern
    {
      var found := Match(selector);
      if found.None? {
        h, pattern := NotFoundHandler, "";
      } else {
        h, pattern := found.value.h, found.value.pattern;
      }
    }
  }
}
