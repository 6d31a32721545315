/** Department names as `filterFaculty` compares them: `normalizeDeptName`
    turns a free-form label into a comparison key, and `canonicalDept`
    maps the keys of a fixed alias table onto their canonical name. */
module Departments {
  import opened Wrappers
  import opened Text

  /** The characters the normalised name may keep: `[a-z0-9 ]`. */
  predicate IsKept(c: char) {
    ('a' <= c <= 'z') || ('0' <= c <= '9') || c == ' '
  }

  predicate AllKept(s: string) {
    forall i :: 0 <= i < |s| ==> IsKept(s[i])
  }

  /** What `replace(/&/g, 'and')` puts in place of one character. */
  function Spell(c: char): (r: string)
    ensures '&' !in r
    ensures c != '&' ==> r == [c]
  {
    if c == '&' then "and" else [c]
  }

  /** `replace(/&/g, 'and')`: every ampersand becomes the word `and`. */
  function ReplaceAmpersand(s: string): string {
    if s == [] then [] else Spell(s[0]) + ReplaceAmpersand(s[1..])
  }

  /** No ampersand is left after the replacement. */
  lemma {:induction false} ReplaceAmpersandRemoves(s: string)
    ensures '&' !in ReplaceAmpersand(s)
  {
    if s != [] {
      ReplaceAmpersandRemoves(s[1..]);
    }
  }

  /** A string without an ampersand is left unchanged. */
  lemma {:induction false} ReplaceAmpersandNoop(s: string)
    requires '&' !in s
    ensures ReplaceAmpersand(s) == s
  {
    if s != [] {
      assert s[0] in s;
      ReplaceAmpersandNoop(s[1..]);
      assert s == [s[0]] + s[1..];
    }
  }

  /** The replacement works character by character, so it distributes over
      concatenation. */
  lemma {:induction false} ReplaceAmpersandAppend(a: string, b: string)
    ensures ReplaceAmpersand(a + b) == ReplaceAmpersand(a) + ReplaceAmpersand(b)
  {
    if a == [] {
      assert a + b == b;
    } else {
      var c := a + b;
      assert c[0] == a[0] && c[1..] == a[1..] + b;
      ReplaceAmpersandAppend(a[1..], b);
      assert ReplaceAmpersand(c) == Spell(a[0]) + ReplaceAmpersand(a[1..] + b);
    }
  }

  /** Each ampersand is spelled `and` in place, and the text around it is
      replaced on its own. */
  lemma ReplaceAmpersandSpells(a: string, b: string)
    ensures ReplaceAmpersand(a + "&" + b) == ReplaceAmpersand(a) + "and" + ReplaceAmpersand(b)
  {
    ReplaceAmpersandAppend(a + "&", b);
    ReplaceAmpersandAppend(a, "&");
    assert ReplaceAmpersand("&") == Spell('&') + ReplaceAmpersand([]);
  }

  /** `replace(/[^a-z0-9 ]+/g, '')`: every run of characters outside
      `[a-z0-9 ]` is deleted, which deletes each such character. */
  function StripOthers(s: string): (r: string)
    ensures |r| <= |s|
    ensures AllKept(r)
  {
    if s == [] then []
    else (if IsKept(s[0]) then [s[0]] else []) + StripOthers(s[1..])
  }

  /** A string of kept characters only is left unchanged by the strip. */
  lemma {:induction false} StripOthersNoop(s: string)
    requires AllKept(s)
    ensures StripOthers(s) == s
  {
    if s != [] {
      StripOthersNoop(s[1..]);
      assert s == [s[0]] + s[1..];
    }
  }

  /** The strip works character by character, so it distributes over
      concatenation: the kept characters stay in their order. */
  lemma {:induction false} StripOthersAppend(a: string, b: string)
    ensures StripOthers(a + b) == StripOthers(a) + StripOthers(b)
  {
    if a == [] {
      assert a + b == b;
    } else {
      var c := a + b;
      assert c[0] == a[0] && c[1..] == a[1..] + b;
      StripOthersAppend(a[1..], b);
      assert StripOthers(c) == (if IsKept(a[0]) then [a[0]] else []) + StripOthers(a[1..] + b);
    }
  }

  /** The strip keeps exactly the characters of `[a-z0-9 ]`. */
  lemma {:induction false} StripOthersKeeps(s: string, c: char)
    ensures c in StripOthers(s) <==> c in s && IsKept(c)
  {
    if s != [] {
      StripOthersKeeps(s[1..], c);
      assert s == [s[0]] + s[1..];
    }
  }

  /** `normalizeDeptName`: a missing or empty name gives the empty string;
      otherwise the name is lowercased, `&` is spelled `and`, everything
      outside `[a-z0-9 ]` is deleted and the result is trimmed. */
  function Normalize(name: Option<string>): (r: string)
    ensures AllKept(r)
    ensures Trimmed(r)
    ensures name == None || name == Some([]) ==> r == []
  {
    if name == None || name.value == [] then []
    else
      var stripped := StripOthers(ReplaceAmpersand(Lower(name.value)));
      TrimKeepsKept(stripped);
      Trim(stripped)
  }

  lemma TrimKeepsKept(s: string)
    requires AllKept(s)
    ensures AllKept(Trim(s))
  {
    var a := SpaceRunFrom(s, 0);
    var r := Trim(s);
    forall i | 0 <= i < |r| ensures IsKept(r[i]) {
      assert r[i] == s[a + i];
    }
  }

  /** Normalisation of a present, non-empty name, step by step. */
  lemma NormalizeVia(name: string, lowered: string, spelled: string, kept: string)
    requires name != [] && Lower(name) == lowered && ReplaceAmpersand(lowered) == spelled
    requires StripOthers(spelled) == kept && Trimmed(kept)
    ensures Normalize(Some(name)) == kept
  {
    TrimOfTrimmed(kept);
  }

  /** A string of kept characters holds no ampersand. */
  lemma KeptHasNoAmpersand(s: string)
    requires AllKept(s)
    ensures '&' !in s
  {
    forall i | 0 <= i < |s| ensures s[i] != '&' {
      assert IsKept(s[i]);
    }
  }

  /** A normalised name is its own normalisation. */
  lemma NormalizeIdempotent(name: Option<string>)
    ensures Normalize(Some(Normalize(name))) == Normalize(name)
  {
    var n := Normalize(name);
    if n != [] {
      LowerOfLower(n);
      KeptHasNoAmpersand(n);
      ReplaceAmpersandNoop(n);
      StripOthersNoop(n);
      assert Trimmed(n);
      TrimOfTrimmed(n);
    }
  }

  /** The alias table of `canonicalDept`. */
  const Aliases: map<string, string> := map["maths" := "mathematics", "math" := "mathematics"]

  /** `canonicalDept`: the normalised name, replaced by its alias target
      when the table has one. */
  function Canonical(name: Option<string>): (r: string)
    ensures AllKept(r)
    ensures Trimmed(r)
  {
    var n := Normalize(name);
    if n in Aliases then
      AliasTargetsAreKept(n);
      Aliases[n]
    else n
  }

  lemma AliasTargetsAreKept(n: string)
    requires n in Aliases
    ensures AllKept(Aliases[n]) && Trimmed(Aliases[n])
  {
  }

  /** Canonicalisation changes a name exactly when its normalised form is
      one of the aliases, and then it yields `mathematics`. */
  lemma CanonicalChanges(name: Option<string>)
    ensures Canonical(name) != Normalize(name) <==> Normalize(name) in {"maths", "math"}
    ensures Normalize(name) in {"maths", "math"} ==> Canonical(name) == "mathematics"
  {
  }

  /** The names canonicalised to `mathematics` are exactly those whose
      normalised form is `maths`, `math` or `mathematics`. */
  lemma CanonicalMathematics(name: Option<string>)
    ensures Canonical(name) == "mathematics" <==> Normalize(name) in {"maths", "math", "mathematics"}
  {
  }

  /** A missing department, or one none of whose characters survives the
      normalisation, canonicalises to the empty string. */
  lemma EmptyCanonical(name: Option<string>)
    requires name.Some? ==> forall i :: 0 <= i < |name.value| ==>
               LowerChar(name.value[i]) != '&' && !IsKept(LowerChar(name.value[i]))
    ensures Canonical(name) == ""
  {
    if name.Some? && name.value != [] {
      var lowered := Lower(name.value);
      assert '&' !in lowered;
      ReplaceAmpersandNoop(lowered);
      var stripped := StripOthers(ReplaceAmpersand(lowered));
      if stripped != [] {
        StripOthersKeeps(lowered, stripped[0]);
        assert false;
      }
    }
  }
}
