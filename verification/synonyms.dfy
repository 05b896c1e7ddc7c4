/**
 * The synonym equivalence resolver: an index from every normalised
 * vulnerability label to the labels of the group(s) it belongs to, and the
 * `is_synonyms` query over it. The process-wide lazy cache is only
 * memoisation, so the index is a pure function of the group list here.
 */
module Synonyms {
  import opened Text

  /** The fixed synonym groups, in source order: eight groups of at least two labels each. */
  function KnownSynonyms(): (groups: seq<seq<string>>)
    ensures |groups| == 8
    ensures forall i :: 0 <= i < |groups| ==> |groups[i]| >= 2
  {
    [
      [
        "Missing Check on Signature Recovery",
        "Signature replay",
        "Authorization Issue",
        "Invalid Signature Handling",
        "Invalid Signature Length",
        "Replay Attack",
        "Signature Malleability",
        "Signature Length Validation",
        "Authorization Bypass",
        "ECDSA Signature Malleability",
        "Unsecured Use of Keccak256",
        "Vulnerability in Signature Management",
        "Invalid Signature Recovery",
        "Incorrect Signature Verification"
      ],
      ["Gas griefing", "Gas grief", "unchecked call", "Gas Limit DoS", "Denial of Service"],
      [
        "Unguarded function",
        "Missed access check",
        "(un?)intentional backdoor",
        "Unprotected function",
        "Unexpected privilege grants",
        "Unsecured Function"
      ],
      ["Invalid code", "Invalid"],
      ["Forced reception", "Forced Ether Reception", "Forced ETH Reception"],
      ["Arithmetic Overflow", "Integer overflow", "Integer overflow/underflow"],
      [
        "Bad randomness",
        "Predictable Random Number",
        "Predictable Randomness",
        "Timestamp Dependence",
        "Weak Randomness",
        "Unsecured Randomness",
        "Unsecured Random Number Generation"
      ],
      ["Arithmetic Reentrancy", "Reentrancy", "Vulnerable to Reentrancy"]
    ]
  }

  /** Label -> every label considered equivalent to it. */
  type Index = map<string, set<string>>

  /** How a query normalises a label: `strip()` then `lower()`. */
  function Normalize(s: string): string {
    Lower(Strip(s))
  }

  /** How the index normalises a group: `lower()` then `strip()` on every member. */
  function Prepare(group: seq<string>): (p: seq<string>)
    ensures |p| == |group|
  {
    seq(|group|, i requires 0 <= i < |group| => Strip(Lower(group[i])))
  }

  /** `index.get(k, set())`. */
  function Lookup(index: Index, k: string): set<string> {
    if k in index then index[k] else {}
  }

  /** `k` is a label of some group, normalised as the index normalises it. */
  predicate IsLabel(groups: seq<seq<string>>, k: string) {
    exists g :: g in groups && k in Prepare(g)
  }

  /** `k` and `o` share at least one group; every label of a group is related to itself. */
  predicate Related(groups: seq<seq<string>>, k: string, o: string) {
    exists g :: g in groups && k in Prepare(g) && o in Prepare(g)
  }

  /** The set the index gives `k` holds `o`. */
  predicate Holds(index: Index, k: string, o: string) {
    o in Lookup(index, k)
  }

  /** The innermost loop: `prepared.setdefault(variant, set()).add(other)` for each `other`. */
  function AddOthers(index: Index, variant: string, others: seq<string>): (r: Index)
    ensures forall k :: k in r <==> k in index || (others != [] && k == variant)
    ensures forall k, o :: Holds(r, k, o) <==> Holds(index, k, o) || (k == variant && o in others)
    decreases others
  {
    if others == [] then index
    else
      var added := Lookup(index, variant) + {others[0]};
      var updated := index[variant := added];
      LookupUpdate(index, updated, variant, added);
      SeqCons(others);
      AddOthers(updated, variant, others[1..])
  }

  /** The middle loop: every variant of a prepared group gets every member of it. */
  function AddVariants(index: Index, variants: seq<string>, prepared: seq<string>): (r: Index)
    ensures forall k :: k in r <==> k in index || (prepared != [] && k in variants)
    ensures forall k, o :: Holds(r, k, o) <==> Holds(index, k, o) || (k in variants && o in prepared)
    decreases variants
  {
    if variants == [] then index
    else
      SeqCons(variants);
      AddVariants(AddOthers(index, variants[0], prepared), variants[1..], prepared)
  }

  lemma LookupUpdate(index: Index, updated: Index, key: string, value: set<string>)
    requires updated == index[key := value]
    ensures forall k, o :: Holds(updated, k, o) <==> (k == key && o in value) || (k != key && Holds(index, k, o))
  {
  }

  lemma SeqCons(xs: seq<string>)
    requires xs != []
    ensures forall x :: x in xs <==> x == xs[0] || x in xs[1..]
  {
  }

  /** The outer loop, from an index already holding the earlier groups. */
  function LoadFrom(index: Index, groups: seq<seq<string>>): (r: Index)
    ensures forall k :: k in r <==> k in index || IsLabel(groups, k)
    ensures forall k, o :: Holds(r, k, o) <==> Holds(index, k, o) || Related(groups, k, o)
    decreases groups
  {
    if groups == [] then index
    else
      var p := Prepare(groups[0]);
      GroupsCons(groups);
      LoadFrom(AddVariants(index, p, p), groups[1..])
  }

  /** Splitting off the first group. */
  lemma GroupsCons(groups: seq<seq<string>>)
    requires groups != []
    ensures forall k :: IsLabel(groups, k) <==> k in Prepare(groups[0]) || IsLabel(groups[1..], k)
    ensures forall k, o :: Related(groups, k, o) <==> (k in Prepare(groups[0]) && o in Prepare(groups[0])) || Related(groups[1..], k, o)
  {
    forall g | g in groups && g != groups[0]
      ensures g in groups[1..]
    {
    }
  }

  /**
   * `load_synonyms`: the keys are exactly the normalised labels of the groups,
   * and each key maps to every label it shares a group with, itself included.
   */
  function LoadSynonyms(groups: seq<seq<string>>): (index: Index)
    ensures forall k :: k in index <==> IsLabel(groups, k)
    ensures forall k, o :: k in index ==> (o in index[k] <==> Related(groups, k, o))
  {
    LoadFrom(map[], groups)
  }

  /**
   * `is_synonyms(expected, answer)` against the index of `groups`: true
   * exactly when the normalised labels are equal or share a group.
   */
  function IsSynonyms(groups: seq<seq<string>>, expected: string, answer: string): (r: bool)
    ensures r <==> Normalize(answer) == Normalize(expected) || Related(groups, Normalize(expected), Normalize(answer))
  {
    var e := Normalize(expected);
    var a := Normalize(answer);
    if a == e then true
    else
      a in Lookup(LoadSynonyms(groups), e)
  }

  /** A raw label's index key is its query normalisation, whichever order `lower` and `strip` run in. */
  lemma {:induction false} KeyIsNormalized(x: string)
    ensures Strip(Lower(x)) == Normalize(x)
  {
    StripLowerCommute(x);
  }

  /** After loading, every member of a group is a key whose set holds the whole group, itself included. */
  lemma {:induction false} GroupIsIndexed(groups: seq<seq<string>>, i: int, a: string)
    requires 0 <= i < |groups| && a in groups[i]
    ensures Normalize(a) in LoadSynonyms(groups)
    ensures forall o :: o in Prepare(groups[i]) ==> o in LoadSynonyms(groups)[Normalize(a)]
  {
    var g := groups[i];
    var j :| 0 <= j < |g| && g[j] == a;
    var na := Normalize(a);
    KeyIsNormalized(a);
    assert Prepare(g)[j] == na;
    assert g in groups;
    assert IsLabel(groups, na);
    forall o | o in Prepare(g)
      ensures o in LoadSynonyms(groups)[na]
    {
      assert Related(groups, na, o);
    }
  }

  lemma PreparedMembersRelated(groups: seq<seq<string>>, i: int, ja: int, jb: int)
    requires 0 <= i < |groups| && 0 <= ja < |groups[i]| && 0 <= jb < |groups[i]|
    ensures Related(groups, Strip(Lower(groups[i][ja])), Strip(Lower(groups[i][jb])))
  {
    assert Prepare(groups[i])[ja] == Strip(Lower(groups[i][ja]));
    assert Prepare(groups[i])[jb] == Strip(Lower(groups[i][jb]));
  }

  /** Two members of one group are related by the index, whatever their case or padding. */
  lemma {:induction false} SameGroupRelated(groups: seq<seq<string>>, i: int, a: string, b: string)
    requires 0 <= i < |groups| && a in groups[i] && b in groups[i]
    ensures Related(groups, Normalize(a), Normalize(b))
  {
    var ja :| 0 <= ja < |groups[i]| && groups[i][ja] == a;
    var jb :| 0 <= jb < |groups[i]| && groups[i][jb] == b;
    PreparedMembersRelated(groups, i, ja, jb);
    KeyIsNormalized(a);
    KeyIsNormalized(b);
  }

  /** Two members of one group are synonyms, in both directions and whatever their case or padding. */
  lemma {:induction false} SameGroupSynonyms(groups: seq<seq<string>>, i: int, a: string, b: string)
    requires 0 <= i < |groups| && a in groups[i] && b in groups[i]
    ensures IsSynonyms(groups, a, b) && IsSynonyms(groups, b, a)
  {
    SameGroupRelated(groups, i, a, b);
    SameGroupRelated(groups, i, b, a);
  }

  /** The answer is symmetric: sharing a group does not depend on which label is expected. */
  lemma IsSynonymsSymmetric(groups: seq<seq<string>>, x: string, y: string)
    ensures IsSynonyms(groups, x, y) == IsSynonyms(groups, y, x)
  {
  }

  /** An expected label with no index entry matches only itself, and nothing is raised. */
  lemma UnknownLabelIsFalse(groups: seq<seq<string>>, expected: string, answer: string)
    requires Normalize(expected) !in LoadSynonyms(groups)
    ensures IsSynonyms(groups, expected, answer) <==> Normalize(answer) == Normalize(expected)
  {
  }

  /**
   * Groups may overlap, so the relation is not transitive: with the groups
   * [a, b] and [b, c] of three distinct labels, a~b and b~c but not a~c.
   */
  lemma {:induction false} NotTransitive(a: string, b: string, c: string)
    requires Normalize(a) != Normalize(b) && Normalize(b) != Normalize(c) && Normalize(a) != Normalize(c)
    ensures IsSynonyms([[a, b], [b, c]], a, b)
    ensures IsSynonyms([[a, b], [b, c]], b, c)
    ensures !IsSynonyms([[a, b], [b, c]], a, c)
  {
    var groups := [[a, b], [b, c]];
    SameGroupSynonyms(groups, 0, a, b);
    SameGroupSynonyms(groups, 1, b, c);
    ChainNotRelated(a, b, c);
  }

  /** In the chain `[[a, b], [b, c]]` no group holds both ends. */
  lemma {:induction false} ChainNotRelated(a: string, b: string, c: string)
    requires Normalize(a) != Normalize(b) && Normalize(b) != Normalize(c) && Normalize(a) != Normalize(c)
    ensures !Related([[a, b], [b, c]], Normalize(a), Normalize(c))
  {
    var groups := [[a, b], [b, c]];
    KeyIsNormalized(a);
    KeyIsNormalized(b);
    KeyIsNormalized(c);
    forall g | g in groups
      ensures !(Normalize(a) in Prepare(g) && Normalize(c) in Prepare(g))
    {
      assert g == [a, b] || g == [b, c];
      assert Prepare(g) == [Normalize(g[0]), Normalize(g[1])];
    }
  }

  /** With the shipped groups, any two labels of one group are synonyms, in either order and whatever their case or padding. */
  lemma ShippedGroupsSynonyms()
    ensures forall i, a, b ::
              (0 <= i < |KnownSynonyms()| && a in KnownSynonyms()[i] && b in KnownSynonyms()[i]
               ==> IsSynonyms(KnownSynonyms(), a, b))
  {
    forall i, a, b | 0 <= i < |KnownSynonyms()| && a in KnownSynonyms()[i] && b in KnownSynonyms()[i]
      ensures IsSynonyms(KnownSynonyms(), a, b)
    {
      SameGroupSynonyms(KnownSynonyms(), i, a, b);
    }
  }

  /** The shipped groups: "Invalid code" and "Invalid" are synonyms both ways. */
  lemma InvalidCodeSynonyms()
    ensures IsSynonyms(KnownSynonyms(), "Invalid code", "Invalid")
    ensures IsSynonyms(KnownSynonyms(), "Invalid", "Invalid code")
  {
    SameGroupSynonyms(KnownSynonyms(), 3, "Invalid code", "Invalid");
  }
}
