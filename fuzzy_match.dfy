/**
 * `fuzzyMatch`: two names match when their keys are equal, when one key contains
 * the other, or when any of seven rewrites of one key equals or contains / is
 * contained in any of seven rewrites of the other.
 */
module FuzzyMatch {
  import opened JsText
  import opened Normalize

  /** Two strings are equal or one contains the other. */
  predicate Overlaps(a: string, b: string)
  {
    a == b || Contains(a, b) || Contains(b, a)
  }

  /**
   * The seven rewrites of a key, in the order the source lists them: the key itself,
   * the key without each of the three company-form words, without periods, and the two
   * case-insensitive translations between `online store` and its katakana spelling.
   */
  function Variations(n: string): (vs: seq<string>)
    ensures |vs| == 7 && vs[0] == n
  {
    [ n,
      ReplaceAll(n, "株式会社", ""),
      ReplaceAll(n, "有限会社", ""),
      ReplaceAll(n, "合同会社", ""),
      ReplaceAll(n, ".", ""),
      ReplaceAllIgnoringCase(n, "online store", "オンラインストア"),
      ReplaceAllIgnoringCase(n, "オンラインストア", "online store") ]
  }

  /** The inner loop over the rewrites of the second key. */
  function OverlapsSome(a: string, vs: seq<string>): bool
  {
    if vs == [] then false else Overlaps(a, vs[0]) || OverlapsSome(a, vs[1..])
  }

  /** The nested loop over both lists of rewrites, stopping at the first overlapping pair. */
  function AnyPairOverlaps(us: seq<string>, vs: seq<string>): bool
  {
    if us == [] then false else OverlapsSome(us[0], vs) || AnyPairOverlaps(us[1..], vs)
  }

  lemma {:induction false} OverlapsSomeIff(a: string, vs: seq<string>)
    ensures OverlapsSome(a, vs) <==> exists j :: 0 <= j < |vs| && Overlaps(a, vs[j])
  {
    if vs != [] {
      OverlapsSomeIff(a, vs[1..]);
      if Overlaps(a, vs[0]) {
        assert Overlaps(a, vs[0]);
      } else if exists j :: 0 <= j < |vs| && Overlaps(a, vs[j]) {
        var j :| 0 <= j < |vs| && Overlaps(a, vs[j]);
        assert vs[1..][j - 1] == vs[j];
      }
      if OverlapsSome(a, vs[1..]) {
        var j :| 0 <= j < |vs[1..]| && Overlaps(a, vs[1..][j]);
        assert vs[j + 1] == vs[1..][j];
      }
    }
  }

  /** The nested loop finds a pair exactly when some pair of rewrites overlaps. */
  lemma {:induction false} AnyPairOverlapsIff(us: seq<string>, vs: seq<string>)
    ensures AnyPairOverlaps(us, vs) <==> exists i, j :: 0 <= i < |us| && 0 <= j < |vs| && Overlaps(us[i], vs[j])
  {
    if us != [] {
      AnyPairOverlapsIff(us[1..], vs);
      OverlapsSomeIff(us[0], vs);
      if exists i, j :: 0 <= i < |us| && 0 <= j < |vs| && Overlaps(us[i], vs[j]) {
        var i, j :| 0 <= i < |us| && 0 <= j < |vs| && Overlaps(us[i], vs[j]);
        if i > 0 {
          assert us[1..][i - 1] == us[i];
        }
      }
      if AnyPairOverlaps(us[1..], vs) {
        var i, j :| 0 <= i < |us[1..]| && 0 <= j < |vs| && Overlaps(us[1..][i], vs[j]);
        assert us[i + 1] == us[1..][i];
      }
    }
  }

  /** Some rewrite of one key overlaps some rewrite of the other. */
  predicate VariationsOverlap(n1: string, n2: string)
  {
    var v1, v2 := Variations(n1), Variations(n2);
    exists i, j :: 0 <= i < 7 && 0 <= j < 7 && Overlaps(v1[i], v2[j])
  }

  /** `fuzzyMatch(name1, name2)`. */
  function FuzzyMatch(name1: string, name2: string): (r: bool)
    ensures name1 == [] || name2 == [] ==> !r
    ensures name1 != [] && name2 != [] && Overlaps(NormalizeText(name1), NormalizeText(name2)) ==> r
  {
    if name1 == [] || name2 == [] then false
    else
      var n1, n2 := NormalizeText(name1), NormalizeText(name2);
      if n1 == n2 then true
      else if Contains(n1, n2) || Contains(n2, n1) then true
      else AnyPairOverlaps(Variations(n1), Variations(n2))
  }

  /**
   * The equality and containment tests before the rewrite loop decide nothing the loop
   * would not: the first rewrite of each side is the key itself.
   */
  lemma MatchIsVariationsOverlap(name1: string, name2: string)
    ensures FuzzyMatch(name1, name2)
            <==> name1 != [] && name2 != [] && VariationsOverlap(NormalizeText(name1), NormalizeText(name2))
  {
    if name1 != [] && name2 != [] {
      var n1, n2 := NormalizeText(name1), NormalizeText(name2);
      AnyPairOverlapsIff(Variations(n1), Variations(n2));
      if Overlaps(n1, n2) {
        assert Overlaps(Variations(n1)[0], Variations(n2)[0]);
      }
    }
  }

  /** The matcher does not depend on which name comes first. */
  lemma Symmetric(name1: string, name2: string)
    ensures FuzzyMatch(name1, name2) == FuzzyMatch(name2, name1)
  {
    MatchIsVariationsOverlap(name1, name2);
    MatchIsVariationsOverlap(name2, name1);
    if name1 != [] && name2 != [] {
      VariationsOverlapSymmetric(NormalizeText(name1), NormalizeText(name2));
    }
  }

  lemma VariationsOverlapSymmetric(n1: string, n2: string)
    ensures VariationsOverlap(n1, n2) == VariationsOverlap(n2, n1)
  {
    if VariationsOverlap(n1, n2) {
      var i, j :| 0 <= i < 7 && 0 <= j < 7 && Overlaps(Variations(n1)[i], Variations(n2)[j]);
      assert Overlaps(Variations(n2)[j], Variations(n1)[i]);
    }
    if VariationsOverlap(n2, n1) {
      var j, i :| 0 <= j < 7 && 0 <= i < 7 && Overlaps(Variations(n2)[j], Variations(n1)[i]);
      assert Overlaps(Variations(n1)[i], Variations(n2)[j]);
    }
  }

  /**
   * The `online store` rewrite never changes a key: the pattern holds a space and
   * keys hold none.
   */
  lemma OnlineStoreNeverFires(name: string)
    ensures Variations(NormalizeText(name))[5] == NormalizeText(name)
  {
    OnlineStoreKeepsKey(NormalizeText(name), "online store");
  }

  lemma OnlineStoreKeepsKey(n: string, pat: string)
    requires IsKey(n) && pat == "online store"
    ensures Variations(n)[5] == n
  {
    assert pat[6] == ' ';
    assert NoSpace(n) by {
      forall i | 0 <= i < |n| ensures !IsSpace(n[i]) {
        assert IsKeyChar(n[i]);
      }
    }
    OnlineStoreRewrite(n);
    ReplaceIgnoringCaseNeedsSpace(n, pat, "オンラインストア");
  }

  lemma OnlineStoreRewrite(n: string)
    ensures Variations(n)[5] == ReplaceAllIgnoringCase(n, "online store", "オンラインストア")
  {
  }

  /**
   * A name whose key is empty (only white space, middle dots, long-vowel marks and
   * dashes) matches every non-empty name, since every string contains the empty one.
   */
  lemma EmptyKeyMatchesEverything(name: string, other: string)
    requires name != [] && other != [] && NormalizeText(name) == []
    ensures FuzzyMatch(name, other)
  {
    assert OccursAt(NormalizeText(other), [], 0);
  }

  /** The two spellings of the care-home name match. */
  lemma CareHomeMatch(orderName: string, manifestName: string)
    requires orderName == "CL1松原天美我堂・ショートステイ"
    requires manifestName == "ＣＬ１松原天美我堂・ショ\U{FF0D}トステイ"
    ensures FuzzyMatch(orderName, manifestName)
  {
    CareHomeKeys(orderName, manifestName);
  }

  /**
   * A key ending in the company-form word `株式会社` matches every key that contains
   * what precedes the word, when the word's first character does not occur before it.
   */
  lemma CompanyFormDropped(full: string, base: string, other: string)
    requires full == base + "株式会社" && '株' !in base
    requires NormalizeText(full) == full && other != [] && Contains(NormalizeText(other), base)
    ensures FuzzyMatch(full, other)
  {
    DropForm(full, base);
    CompanyFormRewrite(full);
    var n2 := NormalizeText(other);
    assert Overlaps(Variations(full)[1], Variations(n2)[0]);
    RewritesOverlap(full, other, 1, 0);
  }

  lemma CompanyFormRewrite(n: string)
    ensures Variations(n)[1] == ReplaceAll(n, "株式会社", "")
  {
  }

  lemma DropForm(full: string, base: string)
    requires full == base + "株式会社" && '株' !in base
    ensures ReplaceAll(full, "株式会社", "") == base
  {
    ReplaceAllAtEnd(base, "株式会社", "");
    assert base + "" == base;
  }

  /** One overlapping pair of rewrites is enough for a match. */
  lemma RewritesOverlap(name1: string, name2: string, i: int, j: int)
    requires name1 != [] && name2 != [] && 0 <= i < 7 && 0 <= j < 7
    requires Overlaps(Variations(NormalizeText(name1))[i], Variations(NormalizeText(name2))[j])
    ensures FuzzyMatch(name1, name2)
  {
    MatchIsVariationsOverlap(name1, name2);
  }

  /**
   * `佐川運輸株式会社` matches `佐川運輸(株)`: without its company-form word the full
   * name is the start of the abbreviated one.
   */
  lemma CompanyFormMatch(full: string, abbreviated: string)
    requires full == "佐川運輸株式会社" && abbreviated == "佐川運輸(株)"
    ensures FuzzyMatch(full, abbreviated)
  {
    FullFormKey(full);
    ShortFormKey(abbreviated);
    SagawaBase(full, abbreviated, "佐川運輸");
    CompanyFormDropped(full, "佐川運輸", abbreviated);
  }

  /** Both spellings split around the same base name. */
  lemma SagawaBase(full: string, abbreviated: string, base: string)
    requires full == "佐川運輸株式会社" && abbreviated == "佐川運輸(株)" && base == "佐川運輸"
    ensures full == base + "株式会社" && '株' !in base && Contains(abbreviated, base)
  {
    assert OccursAt(abbreviated, base, 0);
  }

  lemma FullFormKey(s: string)
    requires s == "佐川運輸株式会社"
    ensures NormalizeText(s) == s
  {
    assert IsPlainChar(s[0]) && IsPlainChar(s[1]) && IsPlainChar(s[2]) && IsPlainChar(s[3]);
    assert IsPlainChar(s[4]) && IsPlainChar(s[5]) && IsPlainChar(s[6]) && IsPlainChar(s[7]);
    PlainIsKey(s);
    NormalizeKeeps(s);
  }

  lemma ShortFormKey(s: string)
    requires s == "佐川運輸(株)"
    ensures NormalizeText(s) == s
  {
    assert IsPlainChar(s[0]) && IsPlainChar(s[1]) && IsPlainChar(s[2]) && IsPlainChar(s[3]);
    assert IsPlainChar(s[4]) && IsPlainChar(s[5]) && IsPlainChar(s[6]);
    PlainIsKey(s);
    NormalizeKeeps(s);
  }
}
