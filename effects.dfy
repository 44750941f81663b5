/** The hover-effect tag that flask_app.py attaches to each booklet: the
    first keyword of `_EFFECT_BY_KEYWORD`, in insertion order, that occurs in
    the lower-cased "name filename" decides the tag. */
module Effects {
  import opened Text

  /** One `keyword: effect` entry of `_EFFECT_BY_KEYWORD`. */
  datatype Rule = Rule(keyword: string, effect: string)

  /** `_EFFECT_BY_KEYWORD`, in the order a dict iterates: insertion order. */
  const EffectByKeyword: seq<Rule> := [Rule("math", "glow-matrix"), Rule("physics", "vector-field")]

  /** `f"{name} {filename}".lower()`. */
  function Haystack(name: string, filename: string): string {
    Lower(name + " " + filename)
  }

  /** The search loop of `_effect_for_booklet` over `rules`: the effect of the
      first rule whose keyword occurs in `haystack`, or "" when none does. */
  function FirstEffect(rules: seq<Rule>, haystack: string): string {
    if rules == [] then ""
    else if Contains(haystack, rules[0].keyword) then rules[0].effect
    else FirstEffect(rules[1..], haystack)
  }

  /** The rule that decides is the one with the smallest index among those
      whose keyword occurs. */
  lemma {:induction false} FirstEffectIsFirstHit(rules: seq<Rule>, haystack: string, j: nat)
    requires j < |rules| && Contains(haystack, rules[j].keyword)
    requires forall i :: 0 <= i < j ==> !Contains(haystack, rules[i].keyword)
    ensures FirstEffect(rules, haystack) == rules[j].effect
  {
    if j > 0 {
      assert !Contains(haystack, rules[0].keyword);
      assert forall i :: 0 <= i < j - 1 ==> rules[1..][i] == rules[i + 1];
      FirstEffectIsFirstHit(rules[1..], haystack, j - 1);
    }
  }

  /** With no keyword occurring, the result is "". */
  lemma {:induction false} FirstEffectNoHit(rules: seq<Rule>, haystack: string)
    requires forall i :: 0 <= i < |rules| ==> !Contains(haystack, rules[i].keyword)
    ensures FirstEffect(rules, haystack) == ""
  {
    if rules != [] {
      assert !Contains(haystack, rules[0].keyword);
      assert forall i :: 0 <= i < |rules| - 1 ==> rules[1..][i] == rules[i + 1];
      FirstEffectNoHit(rules[1..], haystack);
    }
  }

  /** `_effect_for_booklet(name, filename)` as a value: "glow-matrix" exactly
      when "math" occurs, "vector-field" exactly when "physics" occurs and
      "math" does not, "" exactly when neither does. */
  function EffectFor(name: string, filename: string): (effect: string)
    ensures effect in {"glow-matrix", "vector-field", ""}
    ensures effect == "glow-matrix" <==> Contains(Haystack(name, filename), "math")
    ensures effect == "vector-field" <==>
      !Contains(Haystack(name, filename), "math") && Contains(Haystack(name, filename), "physics")
    ensures effect == "" <==>
      !Contains(Haystack(name, filename), "math") && !Contains(Haystack(name, filename), "physics")
  {
    var h := Haystack(name, filename);
    var rest := EffectByKeyword[1..];
    assert rest == [Rule("physics", "vector-field")] && rest[1..] == [];
    assert FirstEffect(rest, h) == if Contains(h, "physics") then "vector-field" else "";
    FirstEffect(EffectByKeyword, h)
  }

  /** `_effect_for_booklet`: the loop over the table that returns on the
      first keyword found. */
  method EffectForBooklet(name: string, filename: string) returns (effect: string)
    ensures effect == EffectFor(name, filename)
  {
    var haystack := Lower(name + " " + filename);
    var i := 0;
    while i < |EffectByKeyword|
      invariant 0 <= i <= |EffectByKeyword|
      invariant FirstEffect(EffectByKeyword[i..], haystack) == FirstEffect(EffectByKeyword, haystack)
    {
      var rule := EffectByKeyword[i];
      if Contains(haystack, rule.keyword) {
        return rule.effect;
      }
      assert EffectByKeyword[i..][1..] == EffectByKeyword[i + 1..];
      i := i + 1;
    }
    return "";
  }

  /** Matching ignores letter case: names and filenames that lower-case alike
      get the same effect. */
  lemma EffectIgnoresCase(name1: string, filename1: string, name2: string, filename2: string)
    requires Lower(name1) == Lower(name2) && Lower(filename1) == Lower(filename2)
    ensures EffectFor(name1, filename1) == EffectFor(name2, filename2)
  {
    LowerConcat(name1 + " ", filename1);
    LowerConcat(name1, " ");
    LowerConcat(name2 + " ", filename2);
    LowerConcat(name2, " ");
  }

  /** In particular lower-casing the inputs first changes nothing. */
  lemma EffectOfLowered(name: string, filename: string)
    ensures EffectFor(Lower(name), Lower(filename)) == EffectFor(name, filename)
  {
    LowerIdempotent(name);
    LowerIdempotent(filename);
    EffectIgnoresCase(Lower(name), Lower(filename), name, filename);
  }

  /** "math" wins over "physics" when both occur. */
  lemma MathWinsOverPhysics()
    ensures EffectFor("Physics and Math", "Physics_and_Math_2024.pdf") == "glow-matrix"
  {
    var h := Haystack("Physics and Math", "Physics_and_Math_2024.pdf");
    assert h[12..16] == "math";
    assert OccursAt(h, "math", 12);
    ContainsIff(h, "math");
  }
}
