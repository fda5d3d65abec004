/**
 * The comparison policy shared by both search trees: keys are compared after
 * normalization, equality is equality of normalized keys, and ordering is the
 * collation of normalized keys.
 */
module Order {
  import opened Strings

  /**
   * The collation `localeCompare(a, b) < 0`. It is a foreign library routine,
   * so the model takes it as a parameter.
   */
  type Collation = (string, string) -> bool

  /**
   * How a tree compares keys: a normalization applied to both sides, then
   * equality or the collation. The trees take the policy as a parameter; the
   * one the application uses is `Source`.
   */
  datatype Policy = Policy(normalize: string -> string, before: Collation)

  /** The application's policy: keys are trimmed and lower-cased before comparison. */
  function Source(collate: Collation): Policy {
    Policy(Normalize, collate)
  }

  /**
   * What the model assumes of the collation: on keys, `isLess` is a strict
   * order that is total up to `isEqual`. Only normalized keys ever reach the
   * collation, so nothing is assumed about it on other strings.
   */
  ghost predicate Lawful(pol: Policy) {
    && (forall a :: !Less(pol, a, a))
    && (forall a, b, c :: Less(pol, a, b) && Less(pol, b, c) ==> Less(pol, a, c))
    && (forall a, b :: !Equal(pol, a, b) ==> Less(pol, a, b) || Less(pol, b, a))
  }

  /** `isEqual`: the keys normalize to the same text. */
  predicate Equal(pol: Policy, a: string, b: string) {
    pol.normalize(a) == pol.normalize(b)
  }

  /** `isLess`: the normalized keys collate in this order. */
  predicate Less(pol: Policy, a: string, b: string) {
    pol.before(pol.normalize(a), pol.normalize(b))
  }

  /** Under the application's policy, a key and its normalized form are equal keys. */
  lemma SourceEqualNormalized(collate: Collation, a: string)
    ensures Equal(Source(collate), a, Normalize(a))
  {
    NormalizeIdempotent(a);
  }

  /** Trimming ` Apple` drops its one leading blank. */
  lemma TrimStartExample()
    ensures TrimStart(" Apple") == "Apple"
  {
    assert " Apple"[0] == ' ' && " Apple"[1..] == "Apple";
    assert "Apple"[0] == 'A' && !IsJsSpace('A');
  }

  /** Keys without surrounding white space are left alone by trimming. */
  lemma TrimExample()
    ensures TrimEnd("Apple") == "Apple" && Trim("apple") == "apple"
  {
    assert "Apple"[4] == 'e' && !IsJsSpace('e');
    assert "apple"[0] == 'a' && !IsJsSpace('a');
    assert "apple"[4] == 'e' && !IsJsSpace('e');
  }

  /** The normalized form of `mango` still starts with `m`. */
  lemma MangoExample()
    ensures Normalize("mango") != "apple"
  {
    assert "mango"[0] == 'm' && !IsJsSpace('m');
    assert TrimStart("mango") == "mango";
    assert Normalize("mango")[0] == 'm';
  }

  /** Both spellings of the example key normalize to `apple`. */
  lemma AppleExample()
    ensures Normalize(" Apple") == "apple" && Normalize("apple") == "apple"
  {
    TrimStartExample();
    TrimExample();
    assert Lower("Apple") == "apple" && Lower("apple") == "apple";
  }

  /**
   * Under every collation, surrounding white space and capitals do not make
   * two keys different, while different letters do.
   */
  lemma SourceEqualExample(collate: Collation)
    ensures Equal(Source(collate), " Apple", "apple")
    ensures !Equal(Source(collate), "apple", "mango")
  {
    AppleExample();
    MangoExample();
  }




  /**
   * `isEqual` is an equivalence, and `isLess` cannot tell equal keys apart,
   * whatever the collation: both compare normalized keys only.
   */
  lemma EqualCompatible(pol: Policy, a: string, b: string, c: string)
    requires Equal(pol, a, b)
    ensures Equal(pol, b, a) && Equal(pol, c, c)
    ensures Equal(pol, b, c) ==> Equal(pol, a, c)
    ensures Less(pol, a, c) <==> Less(pol, b, c)
    ensures Less(pol, c, a) <==> Less(pol, c, b)
  {
  }

  /** `isLess` is transitive on keys. */
  lemma LessTransitive(pol: Policy, a: string, b: string, c: string)
    requires Lawful(pol)
    requires Less(pol, a, b) && Less(pol, b, c)
    ensures Less(pol, a, c)
  {
  }

  /** Less keys are never equal keys, and the order is asymmetric. */
  lemma LessExcludes(pol: Policy, a: string, b: string)
    requires Lawful(pol)
    requires Less(pol, a, b)
    ensures !Equal(pol, a, b) && !Less(pol, b, a)
  {
  }

  /** Two keys that are neither equal nor less are greater: the walk's `else` branch. */
  lemma LessTrichotomy(pol: Policy, a: string, b: string)
    requires Lawful(pol)
    ensures Less(pol, a, b) || Equal(pol, a, b) || Less(pol, b, a)
  {
  }

  /** Strictly increasing under the policy. */
  ghost predicate Sorted(pol: Policy, s: seq<string>) {
    forall i, j :: 0 <= i < j < |s| ==> Less(pol, s[i], s[j])
  }

  ghost predicate AllBelow(pol: Policy, s: seq<string>, key: string) {
    forall i :: 0 <= i < |s| ==> Less(pol, s[i], key)
  }

  ghost predicate AllAbove(pol: Policy, s: seq<string>, key: string) {
    forall i :: 0 <= i < |s| ==> Less(pol, key, s[i])
  }

  /** The parts around one element of a sorted sequence are sorted and lie on its two sides. */
  lemma SortedSplit(pol: Policy, a: seq<string>, k: string, b: seq<string>)
    requires Sorted(pol, a + [k] + b)
    ensures Sorted(pol, a) && Sorted(pol, b)
    ensures AllBelow(pol, a, k) && AllAbove(pol, b, k)
  {
    var s := a + [k] + b;
    assert forall i :: 0 <= i < |a| ==> s[i] == a[i];
    assert forall i :: 0 <= i < |b| ==> s[|a| + 1 + i] == b[i];
    assert s[|a|] == k;
  }

  /** A key strictly between the two halves of a sorted sequence can be placed between them. */
  lemma SortedInsert(pol: Policy, a: seq<string>, key: string, b: seq<string>)
    requires Sorted(pol, a + b)
    requires AllBelow(pol, a, key) && AllAbove(pol, b, key)
    ensures Sorted(pol, a + [key] + b)
  {
    var s := a + b;
    var t := a + [key] + b;
    assert forall k :: 0 <= k < |a| ==> t[k] == s[k] == a[k];
    assert forall k :: |a| < k < |t| ==> t[k] == s[k - 1] == b[k - |a| - 1];
    assert t[|a|] == key;
    forall i, j | 0 <= i < j < |t|
      ensures Less(pol, t[i], t[j])
    {
      if j < |a| || i > |a| {
      } else if j == |a| {
      } else if i < |a| {
        assert Less(pol, s[i], s[j - 1]);
      } else {
        assert Less(pol, key, b[j - |a| - 1]);
      }
    }
  }

  /** Removing an element keeps a sequence sorted. */
  lemma SortedRemove(pol: Policy, s: seq<string>, i: nat)
    requires Sorted(pol, s) && i < |s|
    ensures Sorted(pol, s[..i] + s[i + 1..])
  {
    var t := s[..i] + s[i + 1..];
    assert forall k :: 0 <= k < |t| ==> t[k] == (if k < i then s[k] else s[k + 1]);
  }

  /** Distinct positions of a sorted sequence hold keys that are not equal under the policy. */
  lemma SortedDistinct(pol: Policy, s: seq<string>, i: nat, j: nat)
    requires Lawful(pol)
    requires Sorted(pol, s) && i < |s| && j < |s| && i != j
    ensures !Equal(pol, s[i], s[j])
  {
    if i < j {
      LessExcludes(pol, s[i], s[j]);
    } else {
      LessExcludes(pol, s[j], s[i]);
    }
  }
}
