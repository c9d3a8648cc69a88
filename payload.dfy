/**
 * The payload normaliser of the tool-call result view: re-parse strings
 * that look like JSON, decode HTML entities and normalise white space in
 * every string leaf, all bounded by a recursion depth of six.
 */
module Payload {
  import opened Wrappers
  import opened Json
  import opened Text
  import Entities
  import Whitespace

  predicate IsBracketPair(first: char, last: char) {
    (first == '{' && last == '}') || (first == '[' && last == ']')
  }

  /** `looksLikeJsonString`: a string whose trimmed form starts and ends with a matching bracket pair. */
  predicate LooksLikeJsonString(v: Value) {
    v.Str? && var t := Trim(v.s); |t| > 0 && IsBracketPair(t[0], t[|t| - 1])
  }

  /** `s[i..j]` sits between white-space-only margins and is bracketed by a matching pair. */
  predicate BracketedBetween(s: string, i: nat, j: nat) {
    i < j <= |s| && AllSpace(s[..i]) && AllSpace(s[j..]) && IsBracketPair(s[i], s[j - 1])
  }

  /**
   * The gate holds exactly for a string whose first and last characters
   * outside white-space margins are `{`…`}` or `[`…`]`.
   */
  lemma LooksLikeJsonStringIff(v: Value)
    ensures LooksLikeJsonString(v) <==> v.Str? && exists i: nat, j: nat :: BracketedBetween(v.s, i, j)
  {
    if v.Str? {
      if LooksLikeJsonString(v) {
        var i, j := LooksLikeJsonStringWitness(v.s);
      }
      if exists i: nat, j: nat :: BracketedBetween(v.s, i, j) {
        var i: nat, j: nat :| BracketedBetween(v.s, i, j);
        BracketedLooksLikeJson(v.s, i, j);
      }
    }
  }

  lemma LooksLikeJsonStringWitness(s: string) returns (i: nat, j: nat)
    requires LooksLikeJsonString(Str(s))
    ensures BracketedBetween(s, i, j)
  {
    i, j := TrimSlice(s);
    var t := Trim(s);
    assert t[0] == s[i];
    assert t[|t| - 1] == s[j - 1];
  }

  lemma BracketedLooksLikeJson(s: string, i: nat, j: nat)
    requires BracketedBetween(s, i, j)
    ensures LooksLikeJsonString(Str(s))
  {
    TrimIs(s, i, j);
    var t := Trim(s);
    assert t[0] == s[i];
    assert t[|t| - 1] == s[j - 1];
  }

  /**
   * The key that `output[key] = …` on a fresh `{}` does not store: the
   * assignment calls the inherited `__proto__` setter instead of creating
   * a member.
   */
  const ProtoKey: string := "__proto__"

  /**
   * The members of an object rebuilt by assigning its entries, in
   * enumeration order, to a fresh `{}`: every member except one named
   * `__proto__`, in the same order.
   */
  function OwnMembers(members: seq<(string, Value)>): (r: seq<(string, Value)>)
    ensures |r| <= |members|
    ensures forall i | 0 <= i < |r| :: r[i].0 != ProtoKey
    ensures forall m :: m in r <==> m in members && m.0 != ProtoKey
  {
    if members == [] then []
    else (if members[0].0 == ProtoKey then [] else [members[0]]) + OwnMembers(members[1..])
  }

  /** Members none of which is named `__proto__` are all kept. */
  lemma {:induction false} OwnMembersKeepsPlain(members: seq<(string, Value)>)
    requires forall i | 0 <= i < |members| :: members[i].0 != ProtoKey
    ensures OwnMembers(members) == members
  {
    if members != [] {
      OwnMembersKeepsPlain(members[1..]);
      assert members == [members[0]] + members[1..];
    }
  }

  /** A member named `__proto__` is dropped, so the rebuilt object is smaller. */
  lemma {:induction false} OwnMembersDrops(members: seq<(string, Value)>, i: nat)
    requires i < |members| && members[i].0 == ProtoKey
    ensures |OwnMembers(members)| < |members|
  {
    if i > 0 {
      OwnMembersDrops(members[1..], i - 1);
    }
  }

  /**
   * `deepParseJson`: a JSON-looking string is replaced by its parse, which
   * is processed one level deeper; a failed parse keeps the string; arrays
   * and objects are rebuilt from their processed entries.
   * `parse` stands for `JSON.parse`, None being the exception it throws.
   */
  function DeepParse(parse: string -> Option<Value>, v: Value, depth: nat): Value
    decreases MaxDepth + 1 - depth
  {
    if depth > MaxDepth then v
    else match v
      case Str(s) =>
        if LooksLikeJsonString(v) then
          match parse(s)
          case Some(parsed) => DeepParse(parse, parsed, depth + 1)
          case None => v
        else v
      case Arr(items) =>
        Arr(seq(|items|, i requires 0 <= i < |items| => DeepParse(parse, items[i], depth + 1)))
      case Obj(members) =>
        var kept := OwnMembers(members);
        Obj(seq(|kept|, i requires 0 <= i < |kept| => (kept[i].0, DeepParse(parse, kept[i].1, depth + 1))))
      case _ => v
  }

  /**
   * `w` is `v` with, at most, JSON-looking strings at depth at most six replaced
   * by what they parse to: deeper values, scalars and array lengths are as
   * in `v`, and an object has the members of `v` other than `__proto__`,
   * with the same keys in the same order.
   */
  ghost predicate ParsedFrom(parse: string -> Option<Value>, v: Value, w: Value, depth: nat)
    decreases MaxDepth + 1 - depth
  {
    if depth > MaxDepth then w == v
    else match v
      case Str(s) => w == v || (LooksLikeJsonString(v) && parse(s).Some?)
      case Arr(items) =>
        w.Arr? && |w.items| == |items| &&
        forall i | 0 <= i < |items| :: ParsedFrom(parse, items[i], w.items[i], depth + 1)
      case Obj(members) =>
        var kept := OwnMembers(members);
        w.Obj? && |w.members| == |kept| &&
        forall i | 0 <= i < |kept| ::
          w.members[i].0 == kept[i].0 && ParsedFrom(parse, kept[i].1, w.members[i].1, depth + 1)
      case _ => w == v
  }

  /** Re-parsing only replaces JSON-looking strings that parse, and keeps the rest of the structure. */
  lemma {:induction false} DeepParseKeepsStructure(parse: string -> Option<Value>, v: Value, depth: nat)
    ensures ParsedFrom(parse, v, DeepParse(parse, v, depth), depth)
    decreases MaxDepth + 1 - depth
  {
    if depth <= MaxDepth {
      match v
      case Arr(items) =>
        forall i | 0 <= i < |items| ensures ParsedFrom(parse, items[i], DeepParse(parse, v, depth).items[i], depth + 1) {
          DeepParseKeepsStructure(parse, items[i], depth + 1);
        }
      case Obj(members) =>
        var kept := OwnMembers(members);
        forall i | 0 <= i < |kept|
          ensures ParsedFrom(parse, kept[i].1, DeepParse(parse, v, depth).members[i].1, depth + 1)
        {
          DeepParseKeepsStructure(parse, kept[i].1, depth + 1);
        }
      case _ =>
    }
  }

  /** Every string at depth at most six satisfies `p`. */
  ghost predicate ShallowStrings(v: Value, depth: nat, p: string -> bool)
    decreases MaxDepth + 1 - depth
  {
    depth > MaxDepth ||
    match v
      case Str(s) => p(s)
      case Arr(items) => forall i | 0 <= i < |items| :: ShallowStrings(items[i], depth + 1, p)
      case Obj(members) => forall i | 0 <= i < |members| :: ShallowStrings(members[i].1, depth + 1, p)
      case _ => true
  }

  predicate NotJsonLike(s: string) { !LooksLikeJsonString(Str(s)) }

  /** No object at depth at most six has a member named `__proto__`. */
  ghost predicate ProtoFree(v: Value, depth: nat)
    decreases MaxDepth + 1 - depth
  {
    depth > MaxDepth ||
    match v
      case Arr(items) => forall i | 0 <= i < |items| :: ProtoFree(items[i], depth + 1)
      case Obj(members) => forall i | 0 <= i < |members| :: members[i].0 != ProtoKey && ProtoFree(members[i].1, depth + 1)
      case _ => true
  }

  function Keep(s: string): string { s }

  /** What each deep transform does to a value whose strings it leaves alone: objects rebuilt down to depth six. */
  function Rebuilt(v: Value, depth: nat): Value {
    MapStrings(Keep, v, depth)
  }

  /** Rebuilding gives the value back exactly when no shallow object has a `__proto__` member. */
  lemma {:induction false} RebuiltIff(v: Value, depth: nat)
    ensures Rebuilt(v, depth) == v <==> ProtoFree(v, depth)
    decreases MaxDepth + 1 - depth
  {
    if depth <= MaxDepth {
      match v
      case Arr(items) =>
        var w := Rebuilt(v, depth);
        forall i | 0 <= i < |items| ensures w.items[i] == items[i] <==> ProtoFree(items[i], depth + 1) {
          RebuiltIff(items[i], depth + 1);
        }
        if ProtoFree(v, depth) {
          assert w.items == items;
        }
      case Obj(members) =>
        var w := Rebuilt(v, depth);
        if ProtoFree(v, depth) {
          OwnMembersKeepsPlain(members);
          forall i | 0 <= i < |members| ensures w.members[i] == members[i] {
            RebuiltIff(members[i].1, depth + 1);
          }
          assert w.members == members;
        }
        if w == v {
          forall i | 0 <= i < |members| ensures members[i].0 != ProtoKey {
            if members[i].0 == ProtoKey {
              OwnMembersDrops(members, i);
            }
          }
          OwnMembersKeepsPlain(members);
          forall i | 0 <= i < |members| ensures ProtoFree(members[i].1, depth + 1) {
            assert w.members[i] == members[i];
            RebuiltIff(members[i].1, depth + 1);
          }
        }
      case _ =>
    }
  }

  /**
   * A value none of whose shallow strings looks like JSON comes back
   * rebuilt, and so unchanged when no shallow object has a `__proto__` member.
   */
  lemma {:induction false} DeepParseIdentity(parse: string -> Option<Value>, v: Value, depth: nat)
    requires ShallowStrings(v, depth, NotJsonLike)
    ensures DeepParse(parse, v, depth) == Rebuilt(v, depth)
    ensures ProtoFree(v, depth) ==> DeepParse(parse, v, depth) == v
    decreases MaxDepth + 1 - depth
  {
    if depth <= MaxDepth {
      match v
      case Arr(items) =>
        forall i | 0 <= i < |items| ensures DeepParse(parse, items[i], depth + 1) == Rebuilt(items[i], depth + 1) {
          DeepParseIdentity(parse, items[i], depth + 1);
        }
        assert DeepParse(parse, v, depth).items == Rebuilt(v, depth).items;
      case Obj(members) =>
        var kept := OwnMembers(members);
        forall i | 0 <= i < |kept| ensures DeepParse(parse, kept[i].1, depth + 1) == Rebuilt(kept[i].1, depth + 1) {
          assert kept[i] in members;
          var j :| 0 <= j < |members| && members[j] == kept[i];
          DeepParseIdentity(parse, kept[i].1, depth + 1);
        }
        assert DeepParse(parse, v, depth).members == Rebuilt(v, depth).members;
      case _ =>
    }
    RebuiltIff(v, depth);
  }

  /**
   * For a document whose parse holds no JSON-looking strings, re-parsing
   * its text gives what parsing it directly does, rebuilt: the document
   * itself when it has no shallow `__proto__` member.
   */
  lemma DeepParseOfDocument(parse: string -> Option<Value>, text: string, doc: Value)
    requires LooksLikeJsonString(Str(text)) && parse(text) == Some(doc)
    requires ShallowStrings(doc, 1, NotJsonLike)
    ensures DeepParse(parse, Str(text), 0) == Rebuilt(doc, 1)
    ensures ProtoFree(doc, 1) ==> DeepParse(parse, Str(text), 0) == doc
  {
    DeepParseIdentity(parse, doc, 1);
  }

  /** A `__proto__` member at depth at most six is missing from what the deep parse returns. */
  lemma DeepParseDropsProto(parse: string -> Option<Value>, x: Value, rest: seq<(string, Value)>, depth: nat)
    requires depth <= MaxDepth
    ensures DeepParse(parse, Obj([(ProtoKey, x)] + rest), depth) == DeepParse(parse, Obj(rest), depth)
  {
    OwnMembersSkipsProto(x, rest);
  }

  lemma OwnMembersSkipsProto(x: Value, rest: seq<(string, Value)>)
    ensures OwnMembers([(ProtoKey, x)] + rest) == OwnMembers(rest)
  {
    assert ([(ProtoKey, x)] + rest)[1..] == rest;
  }

  /** `deepDecodeHtmlEntities` and `deepNormalizeWhitespace`: apply `f` to every string leaf at depth at most six. */
  function MapStrings(f: string -> string, v: Value, depth: nat): Value
    decreases MaxDepth + 1 - depth
  {
    if depth > MaxDepth then v
    else match v
      case Str(s) => Str(f(s))
      case Arr(items) =>
        Arr(seq(|items|, i requires 0 <= i < |items| => MapStrings(f, items[i], depth + 1)))
      case Obj(members) =>
        var kept := OwnMembers(members);
        Obj(seq(|kept|, i requires 0 <= i < |kept| => (kept[i].0, MapStrings(f, kept[i].1, depth + 1))))
      case _ => v
  }

  /** A `__proto__` member at depth at most six is missing from what a deep string map returns. */
  lemma MapStringsDropsProto(f: string -> string, x: Value, rest: seq<(string, Value)>, depth: nat)
    requires depth <= MaxDepth
    ensures MapStrings(f, Obj([(ProtoKey, x)] + rest), depth) == MapStrings(f, Obj(rest), depth)
  {
    OwnMembersSkipsProto(x, rest);
  }

  function DeepDecodeHtmlEntities(v: Value, depth: nat): Value {
    MapStrings(Entities.DecodeHtmlEntities, v, depth)
  }

  function DeepNormalizeWhitespace(v: Value, depth: nat): Value {
    MapStrings(Whitespace.NormalizedWhitespace, v, depth)
  }

  /**
   * Two deep string maps in a row are one deep map of the composed string
   * function: the second pass finds no `__proto__` member left to drop.
   */
  lemma {:induction false} MapStringsThen(f: string -> string, g: string -> string, h: string -> string, v: Value, depth: nat)
    requires forall s :: g(f(s)) == h(s)
    ensures MapStrings(g, MapStrings(f, v, depth), depth) == MapStrings(h, v, depth)
    decreases MaxDepth + 1 - depth
  {
    if depth <= MaxDepth {
      match v
      case Arr(items) =>
        var w := MapStrings(g, MapStrings(f, v, depth), depth);
        forall i | 0 <= i < |items| ensures w.items[i] == MapStrings(h, items[i], depth + 1) {
          MapStringsThen(f, g, h, items[i], depth + 1);
        }
        assert w.items == MapStrings(h, v, depth).items;
      case Obj(members) =>
        var kept := OwnMembers(members);
        forall i | 0 <= i < |kept| ensures MapStrings(g, MapStrings(f, kept[i].1, depth + 1), depth + 1) == MapStrings(h, kept[i].1, depth + 1) {
          MapStringsThen(f, g, h, kept[i].1, depth + 1);
        }
        MapStringsThenObj(f, g, h, members, kept, depth);
      case _ =>
    }
  }

  /** The object step of `MapStringsThen`, given the result for each kept member. */
  lemma MapStringsThenObj(f: string -> string, g: string -> string, h: string -> string,
                          members: seq<(string, Value)>, kept: seq<(string, Value)>, depth: nat)
    requires depth <= MaxDepth && kept == OwnMembers(members)
    requires forall i | 0 <= i < |kept| :: MapStrings(g, MapStrings(f, kept[i].1, depth + 1), depth + 1) == MapStrings(h, kept[i].1, depth + 1)
    ensures MapStrings(g, MapStrings(f, Obj(members), depth), depth) == MapStrings(h, Obj(members), depth)
  {
    var um := seq(|kept|, i requires 0 <= i < |kept| => (kept[i].0, MapStrings(f, kept[i].1, depth + 1)));
    assert MapStrings(f, Obj(members), depth) == Obj(um);
    forall i | 0 <= i < |um| ensures um[i].0 != ProtoKey {
      assert um[i].0 == kept[i].0;
    }
    OwnMembersKeepsPlain(um);
    var wm := seq(|um|, i requires 0 <= i < |um| => (um[i].0, MapStrings(g, um[i].1, depth + 1)));
    assert MapStrings(g, Obj(um), depth) == Obj(wm);
    var hm := seq(|kept|, i requires 0 <= i < |kept| => (kept[i].0, MapStrings(h, kept[i].1, depth + 1)));
    assert MapStrings(h, Obj(members), depth) == Obj(hm);
    forall i | 0 <= i < |kept| ensures wm[i] == hm[i] {
      assert wm[i] == (um[i].0, MapStrings(g, um[i].1, depth + 1));
      assert um[i] == (kept[i].0, MapStrings(f, kept[i].1, depth + 1));
    }
    assert wm == hm;
  }

  function Blank(s: string): string { [] }

  /**
   * The value with every string at depth at most six blanked out, as a
   * deep string map leaves it: what a leaf-only change must keep.
   */
  function Skeleton(v: Value, depth: nat): Value {
    MapStrings(Blank, v, depth)
  }

  /**
   * Mapping the strings changes nothing but the string leaves at depth at
   * most six: the keys other than `__proto__`, scalars, array lengths and
   * deeper values are those of any other deep string map.
   */
  lemma MapStringsKeepsSkeleton(f: string -> string, v: Value, depth: nat)
    ensures Skeleton(MapStrings(f, v, depth), depth) == Skeleton(v, depth)
  {
    MapStringsThen(f, Blank, Blank, v, depth);
  }

  /** Every shallow string of the result is an output of `f`, provided every output of `f` satisfies `p`. */
  lemma {:induction false} MapStringsLeaves(f: string -> string, p: string -> bool, v: Value, depth: nat)
    requires forall s :: p(f(s))
    ensures ShallowStrings(MapStrings(f, v, depth), depth, p)
    decreases MaxDepth + 1 - depth
  {
    if depth <= MaxDepth {
      match v
      case Arr(items) =>
        forall i | 0 <= i < |items| ensures ShallowStrings(MapStrings(f, items[i], depth + 1), depth + 1, p) {
          MapStringsLeaves(f, p, items[i], depth + 1);
        }
      case Obj(members) =>
        var kept := OwnMembers(members);
        forall i | 0 <= i < |kept| ensures ShallowStrings(MapStrings(f, kept[i].1, depth + 1), depth + 1, p) {
          MapStringsLeaves(f, p, kept[i].1, depth + 1);
        }
      case _ =>
    }
  }

  /**
   * Mapping `g` after `f` undoes `f` when `g` inverts it on every string:
   * the value comes back rebuilt, and unchanged when it has no shallow
   * `__proto__` member.
   */
  lemma MapStringsInverse(f: string -> string, g: string -> string, v: Value, depth: nat)
    requires forall s :: g(f(s)) == s
    ensures MapStrings(g, MapStrings(f, v, depth), depth) == Rebuilt(v, depth)
    ensures ProtoFree(v, depth) ==> MapStrings(g, MapStrings(f, v, depth), depth) == v
  {
    MapStringsThen(f, g, Keep, v, depth);
    RebuiltIff(v, depth);
  }

  /** Mapping an idempotent `f` twice is mapping it once. */
  lemma MapStringsIdempotent(f: string -> string, v: Value, depth: nat)
    requires forall s :: f(f(s)) == f(s)
    ensures MapStrings(f, MapStrings(f, v, depth), depth) == MapStrings(f, v, depth)
  {
    MapStringsThen(f, f, f, v, depth);
  }

  /**
   * Deep decoding undoes escaping applied to the same string leaves: the
   * value comes back rebuilt, and unchanged without a shallow `__proto__` member.
   */
  lemma DeepDecodeUndoesEscape(v: Value, depth: nat)
    ensures DeepDecodeHtmlEntities(MapStrings(Entities.EscapeHtml, v, depth), depth) == Rebuilt(v, depth)
    ensures ProtoFree(v, depth) ==> DeepDecodeHtmlEntities(MapStrings(Entities.EscapeHtml, v, depth), depth) == v
  {
    forall s ensures Entities.DecodeHtmlEntities(Entities.EscapeHtml(s)) == s {
      Entities.DecodeEscapeRoundTrip(s);
    }
    MapStringsInverse(Entities.EscapeHtml, Entities.DecodeHtmlEntities, v, depth);
  }

  /** Deep normalising is idempotent, and leaves every shallow string in normal form. */
  lemma DeepNormalizeWhitespaceShape(v: Value, depth: nat)
    ensures DeepNormalizeWhitespace(DeepNormalizeWhitespace(v, depth), depth) == DeepNormalizeWhitespace(v, depth)
    ensures ShallowStrings(DeepNormalizeWhitespace(v, depth), depth, Whitespace.NormalForm)
  {
    forall s ensures Whitespace.NormalizedWhitespace(Whitespace.NormalizedWhitespace(s)) == Whitespace.NormalizedWhitespace(s) {
      Whitespace.NormalizeIdempotent(s);
    }
    MapStringsIdempotent(Whitespace.NormalizedWhitespace, v, depth);
    forall s ensures Whitespace.NormalForm(Whitespace.NormalizedWhitespace(s)) {
      Whitespace.NormalizedShape(s);
    }
    MapStringsLeaves(Whitespace.NormalizedWhitespace, Whitespace.NormalForm, v, depth);
  }

  /** The value a `JsonBlock` serialises: parse, then decode, then normalise. */
  function JsonBlockValue(parse: string -> Option<Value>, v: Value): Value {
    DeepNormalizeWhitespace(DeepDecodeHtmlEntities(DeepParse(parse, v, 0), 0), 0)
  }

  /** The Request and Response blocks receive a value that has already been re-parsed once. */
  function DisplayedValue(parse: string -> Option<Value>, raw: Value): Value {
    JsonBlockValue(parse, DeepParse(parse, raw, 0))
  }

  /**
   * What is displayed has every string down to depth six in normal form,
   * and the two string passes keep the re-parsed structure intact.
   */
  lemma DisplayedValueShape(parse: string -> Option<Value>, raw: Value)
    ensures ShallowStrings(DisplayedValue(parse, raw), 0, Whitespace.NormalForm)
    ensures var parsed := DeepParse(parse, DeepParse(parse, raw, 0), 0);
      Skeleton(DisplayedValue(parse, raw), 0) == Skeleton(parsed, 0)
  {
    var parsed := DeepParse(parse, DeepParse(parse, raw, 0), 0);
    var decoded := DeepDecodeHtmlEntities(parsed, 0);
    DeepNormalizeWhitespaceShape(decoded, 0);
    MapStringsKeepsSkeleton(Whitespace.NormalizedWhitespace, decoded, 0);
    MapStringsKeepsSkeleton(Entities.DecodeHtmlEntities, parsed, 0);
  }
}
