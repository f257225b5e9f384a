/** The static tree shape of a template and the process-wide cache that interns it.

    A template is parsed once per cache key (the template text with every
    JavaScript `\s` character removed); every component built from a template
    with that key shares the one tree, and template identity is identity of
    that shared tree. */
module Template {

  /** A node's tag: a literal name, or the parser's sentinel meaning
      "taken from the interpolated argument at this position". */
  datatype Tag = Static(name: string) | Dynamic

  /** An attribute value: literal text, or the sentinel for an interpolation slot. */
  datatype AttrValue = Literal(text: string) | Hole

  datatype Attribute = Attribute(name: string, value: AttrValue)

  /** One node of a parsed template. `numOfInterpolations` is the parser's count of
      slots consumed by the node and its descendants. */
  datatype Tree = Tree(
    tag: Tag,
    attributes: seq<Attribute>,
    numOfInterpolations: nat,
    isTextNode: bool,
    children: seq<Tree>)

  function Size(t: Tree): nat
    decreases t
  {
    1 + ForestSize(t.children)
  }

  function ForestSize(ts: seq<Tree>): nat
    decreases ts
  {
    if |ts| == 0 then 0 else Size(ts[0]) + ForestSize(ts[1..])
  }

  /** The children of any node of a forest are a strictly smaller forest. */
  lemma {:induction false} ChildrenSmaller(ts: seq<Tree>, i: nat)
    requires i < |ts|
    ensures ForestSize(ts[i].children) < ForestSize(ts)
  {
    if i > 0 {
      ChildrenSmaller(ts[1..], i - 1);
      assert ts[1..][i - 1] == ts[i];
    }
  }

  /** The number of attributes whose value is the interpolation sentinel. */
  function Holes(attributes: seq<Attribute>): nat
  {
    if |attributes| == 0 then 0
    else (if attributes[0].value == Hole then 1 else 0) + Holes(attributes[1..])
  }

  lemma {:induction false} HolesSnoc(attributes: seq<Attribute>, a: Attribute)
    ensures Holes(attributes + [a]) == Holes(attributes) + (if a.value == Hole then 1 else 0)
  {
    if |attributes| == 0 {
      assert attributes + [a] == [a];
    } else {
      assert (attributes + [a])[1..] == attributes[1..] + [a];
      HolesSnoc(attributes[1..], a);
    }
  }

  lemma {:induction false} HolesPrefix(attributes: seq<Attribute>, n: nat)
    requires n <= |attributes|
    ensures Holes(attributes[..n]) <= Holes(attributes)
    decreases |attributes| - n
  {
    if n < |attributes| {
      HolesPrefix(attributes, n + 1);
      assert attributes[..n + 1] == attributes[..n] + [attributes[n]];
      HolesSnoc(attributes[..n], attributes[n]);
    } else {
      assert attributes[..n] == attributes;
    }
  }

  /** The characters the regular expression class `\s` matches in JavaScript. */
  predicate IsJsWhitespace(c: char)
  {
    var n := c as int;
    n == 0x09 || n == 0x0A || n == 0x0B || n == 0x0C || n == 0x0D || n == 0x20
    || n == 0xA0 || n == 0x1680 || (0x2000 <= n <= 0x200A)
    || n == 0x2028 || n == 0x2029 || n == 0x202F || n == 0x205F || n == 0x3000 || n == 0xFEFF
  }

  predicate AllWhitespace(s: string)
  {
    forall k :: 0 <= k < |s| ==> IsJsWhitespace(s[k])
  }

  predicate NoWhitespace(s: string)
  {
    forall k :: 0 <= k < |s| ==> !IsJsWhitespace(s[k])
  }

  /** The cache key: the template with every run of whitespace replaced by nothing. */
  function CacheKey(template: string): string
  {
    if |template| == 0 then ""
    else (if IsJsWhitespace(template[0]) then "" else [template[0]]) + CacheKey(template[1..])
  }

  lemma {:induction false} CacheKeyHasNoWhitespace(template: string)
    ensures NoWhitespace(CacheKey(template))
    ensures |CacheKey(template)| <= |template|
  {
    if |template| > 0 {
      CacheKeyHasNoWhitespace(template[1..]);
    }
  }

  lemma {:induction false} CacheKeyConcat(a: string, b: string)
    ensures CacheKey(a + b) == CacheKey(a) + CacheKey(b)
  {
    if |a| == 0 {
      assert a + b == b;
    } else {
      assert (a + b)[0] == a[0];
      assert (a + b)[1..] == a[1..] + b;
      CacheKeyConcat(a[1..], b);
    }
  }

  /** A text without whitespace is its own key, and only such a text is. */
  lemma {:induction false} CacheKeyFixedPoint(template: string)
    ensures CacheKey(template) == template <==> NoWhitespace(template)
  {
    CacheKeyHasNoWhitespace(template);
    if |template| > 0 {
      CacheKeyFixedPoint(template[1..]);
      if !IsJsWhitespace(template[0]) {
        assert CacheKey(template) == [template[0]] + CacheKey(template[1..]);
        assert NoWhitespace(template) ==> NoWhitespace(template[1..]);
        if NoWhitespace(template[1..]) {
          assert template == [template[0]] + template[1..];
        } else {
          var k :| 0 <= k < |template[1..]| && IsJsWhitespace(template[1..][k]);
          assert IsJsWhitespace(template[k + 1]);
        }
      } else {
        assert !NoWhitespace(template);
      }
    }
  }

  lemma CacheKeyIdempotent(template: string)
    ensures CacheKey(CacheKey(template)) == CacheKey(template)
  {
    CacheKeyHasNoWhitespace(template);
    CacheKeyFixedPoint(CacheKey(template));
  }

  /** Inserting or deleting a run of whitespace anywhere does not change the key. */
  lemma CacheKeyIgnoresWhitespace(before: string, ws: string, after: string)
    requires AllWhitespace(ws)
    ensures CacheKey(before + ws + after) == CacheKey(before + after)
  {
    CacheKeyOfWhitespace(ws);
    CacheKeyConcat(before + ws, after);
    CacheKeyConcat(before, ws);
    CacheKeyConcat(before, after);
  }

  lemma {:induction false} CacheKeyOfWhitespace(ws: string)
    requires AllWhitespace(ws)
    ensures CacheKey(ws) == ""
  {
    if |ws| > 0 {
      CacheKeyOfWhitespace(ws[1..]);
    }
  }

  /** The cache: key -> tree id, and tree id -> the parsed forest it names.
      A tree id stands for the identity of the array the parser returned. */
  datatype CacheState = CacheState(entries: map<string, nat>, trees: seq<seq<Tree>>)

  /** Every key names an existing tree and distinct keys name distinct trees
      (each miss parses a fresh tree). */
  predicate ValidCache(s: CacheState)
  {
    && (forall k :: k in s.entries ==> s.entries[k] < |s.trees|)
    && (forall k1, k2 :: k1 in s.entries && k2 in s.entries && k1 != k2 ==> s.entries[k1] != s.entries[k2])
  }

  /** The constructor's lookup: a hit returns the cached tree; a miss parses the
      template as written and caches the result under its key. */
  function Resolve(s: CacheState, template: string, parse: string -> seq<Tree>): (r: (CacheState, nat))
    requires ValidCache(s)
    ensures ValidCache(r.0)
    ensures CacheKey(template) in r.0.entries && r.0.entries[CacheKey(template)] == r.1
    ensures r.1 < |r.0.trees| && |s.trees| <= |r.0.trees| && s.trees == r.0.trees[..|s.trees|]
    ensures forall k :: k in s.entries ==> k in r.0.entries && r.0.entries[k] == s.entries[k]
    ensures CacheKey(template) in s.entries ==> r.0 == s
    ensures CacheKey(template) !in s.entries ==> r.1 == |s.trees| && r.0.trees == s.trees + [parse(template)]
  {
    var key := CacheKey(template);
    if key in s.entries then (s, s.entries[key])
    else (CacheState(s.entries[key := |s.trees|], s.trees + [parse(template)]), |s.trees|)
  }

  /** Template identity: two lookups against one cache yield the same tree
      exactly when the two templates have the same key, that is, when they
      differ only in whitespace. */
  lemma ResolveIdentity(s: CacheState, t1: string, t2: string, parse: string -> seq<Tree>)
    requires ValidCache(s)
    ensures Resolve(Resolve(s, t1, parse).0, t2, parse).1 == Resolve(s, t1, parse).1
            <==> CacheKey(t1) == CacheKey(t2)
  {
    var (s1, id1) := Resolve(s, t1, parse);
    var (s2, id2) := Resolve(s1, t2, parse);
    if CacheKey(t1) != CacheKey(t2) {
      if CacheKey(t2) in s1.entries {
        assert s1.entries[CacheKey(t2)] != s1.entries[CacheKey(t1)];
      } else {
        assert id2 == |s1.trees| && id1 < |s1.trees|;
      }
    }
  }

  /** The mutable process-wide map of the source (`Component.#cachedTrees`). */
  class TreeCache {
    var state: CacheState

    ghost predicate Valid()
      reads this
    {
      ValidCache(state)
    }

    constructor ()
      ensures Valid() && state == CacheState(map[], [])
    {
      state := CacheState(map[], []);
    }

    /** Looks the template up, parsing and caching it on a miss; returns the id and the forest. */
    method Lookup(template: string, parse: string -> seq<Tree>) returns (id: nat, tree: seq<Tree>)
      requires Valid()
      modifies this
      ensures Valid()
      ensures (state, id) == Resolve(old(state), template, parse)
      ensures id < |state.trees| && tree == state.trees[id]
    {
      var key := CacheKey(template);
      if key in state.entries {
        id := state.entries[key];
      } else {
        id := |state.trees|;
        state := CacheState(state.entries[key := id], state.trees + [parse(template)]);
      }
      tree := state.trees[id];
    }
  }
}
