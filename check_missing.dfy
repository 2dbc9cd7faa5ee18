/** The missing-field detector (backend/app/langgraph/nodes/check_missing.py). */
module CheckMissing {

  import opened Json
  import opened Lists
  import opened Constants
  import opened State

  /** `attributes.get(f) is None or attributes.get(f) == ""`. */
  predicate IsMissing(attrs: Object, f: string): (r: bool)
    ensures r ==> !Truthy(Get(attrs, f, Null))
    ensures f in attrs && attrs[f] in [Bool(false), Num(0.0), Arr([]), Obj(map[])] ==> !r
  {
    f !in attrs || attrs[f] == Null || attrs[f] == Str("")
  }

  /** The names of `fields` whose value is missing, in the order of `fields`. */
  function MissingFrom(fields: seq<string>, attrs: Object): seq<string>
  {
    if |fields| == 0 then []
    else (if IsMissing(attrs, fields[0]) then [fields[0]] else []) + MissingFrom(fields[1..], attrs)
  }

  /** The filter keeps exactly the missing names, in order and without adding duplicates. */
  lemma {:induction false} MissingFromSpec(fields: seq<string>, attrs: Object)
    ensures var r := MissingFrom(fields, attrs);
      && (forall f :: f in r <==> f in fields && IsMissing(attrs, f))
      && SubsequenceOf(r, fields) && |r| <= |fields|
      && (NoDup(fields) ==> NoDup(r))
  {
    if |fields| > 0 {
      MissingFromSpec(fields[1..], attrs);
      var rest := MissingFrom(fields[1..], attrs);
      if IsMissing(attrs, fields[0]) {
        assert ([fields[0]] + rest)[1..] == rest;
      } else {
        assert MissingFrom(fields, attrs) == rest;
      }
    }
  }

  /** The list comprehension over `REQUIRED_ATTRIBUTES`. */
  function MissingAttributes(attrs: Object): (r: seq<string>)
    ensures forall f :: f in r <==> f in RequiredAttributes && IsMissing(attrs, f)
    ensures SubsequenceOf(r, RequiredAttributes) && NoDup(r) && |r| <= 7
  {
    RequiredAttributesDistinct();
    MissingFromSpec(RequiredAttributes, attrs);
    MissingFrom(RequiredAttributes, attrs)
  }

  /** `check_missing_attributes`: only `missing_attributes` is written. */
  function CheckMissingNode(s: ValidationState): (r: ValidationState)
    ensures r == s.(missing := r.missing)
    ensures forall f :: f in r.missing <==> f in RequiredAttributes && IsMissing(s.attributes, f)
    ensures SubsequenceOf(r.missing, RequiredAttributes) && NoDup(r.missing)
  {
    s.(missing := MissingAttributes(s.attributes))
  }

  /** The result depends on nothing but the required keys of the attribute map. */
  lemma {:induction false} MissingFromAgrees(fields: seq<string>, a1: Object, a2: Object)
    requires forall f :: f in fields ==> (IsMissing(a1, f) <==> IsMissing(a2, f))
    ensures MissingFrom(fields, a1) == MissingFrom(fields, a2)
  {
    if |fields| > 0 {
      MissingFromAgrees(fields[1..], a1, a2);
    }
  }

  /** Keys outside the required list, and values other than null and "", never matter. */
  lemma OtherKeysIrrelevant(a1: Object, a2: Object)
    requires forall f :: f in RequiredAttributes ==> (f in a1 <==> f in a2)
    requires forall f :: f in RequiredAttributes && f in a1 ==> a1[f] == a2[f]
    ensures MissingAttributes(a1) == MissingAttributes(a2)
  {
    MissingFromAgrees(RequiredAttributes, a1, a2);
  }

  /** Present falsy values such as `0`, `False`, `[]` and `{}` do not count as missing. */
  lemma FalsyIsNotMissing(attrs: Object, f: string)
    requires f in RequiredAttributes && f in attrs
    requires attrs[f] in {Num(0.0), Bool(false), Arr([]), Obj(map[])}
    ensures f !in MissingAttributes(attrs)
  {
  }

  /** Running the detector twice gives what running it once gives. */
  lemma CheckMissingIdempotent(s: ValidationState)
    ensures CheckMissingNode(CheckMissingNode(s)) == CheckMissingNode(s)
  {
  }

  /** A field list none of whose names is missing filters to nothing. */
  lemma {:induction false} NoneMissing(fields: seq<string>, attrs: Object)
    requires forall i :: 0 <= i < |fields| ==> !IsMissing(attrs, fields[i])
    ensures MissingFrom(fields, attrs) == []
  {
    if |fields| > 0 {
      NoneMissing(fields[1..], attrs);
    }
  }

  /** The filter of a concatenation is the concatenation of the filters. */
  lemma {:induction false} MissingFromAppend(xs: seq<string>, ys: seq<string>, attrs: Object)
    ensures MissingFrom(xs + ys, attrs) == MissingFrom(xs, attrs) + MissingFrom(ys, attrs)
  {
    if |xs| == 0 {
      assert xs + ys == ys;
    } else {
      assert (xs + ys)[0] == xs[0];
      assert (xs + ys)[1..] == xs[1..] + ys;
      MissingFromAppend(xs[1..], ys, attrs);
    }
  }

  /** No required field of DESIGN-001 is missing. */
  lemma Design001Present()
    ensures MissingFrom(RequiredAttributes, Design001) == []
  {
    var d := Design001;
    assert !IsMissing(d, "standard") && !IsMissing(d, "voltage") && !IsMissing(d, "conductor_material");
    assert !IsMissing(d, "conductor_class") && !IsMissing(d, "csa") && !IsMissing(d, "insulation_material");
    assert !IsMissing(d, "insulation_thickness");
    NoneMissing(RequiredAttributes, d);
  }

  /** DESIGN-001 is complete. */
  lemma Design001Complete()
    ensures MissingAttributes(DesignDatabase["DESIGN-001"]) == []
  {
    Design001Present();
  }

  /** A one-name list filters to itself when the name is missing. */
  lemma OneMissing(f: string, attrs: Object)
    requires IsMissing(attrs, f)
    ensures MissingFrom([f], attrs) == [f]
  {
    assert [f][1..] == [];
  }

  /** Which required fields of DESIGN-002 hold a value. */
  lemma Design002Values()
    ensures !IsMissing(Design002, "standard") && !IsMissing(Design002, "voltage")
    ensures !IsMissing(Design002, "conductor_material") && IsMissing(Design002, "conductor_class")
    ensures !IsMissing(Design002, "csa") && !IsMissing(Design002, "insulation_material")
    ensures IsMissing(Design002, "insulation_thickness")
  {
  }

  /** The required fields of DESIGN-002 that are missing, in order. */
  lemma Design002Absent()
    ensures MissingFrom(RequiredAttributes, Design002) == ["conductor_class", "insulation_thickness"]
  {
    var d := Design002;
    var a, b, c, e := ["standard", "voltage", "conductor_material"], ["conductor_class"],
                      ["csa", "insulation_material"], ["insulation_thickness"];
    assert RequiredAttributes == a + (b + (c + e));
    Design002Values();
    NoneMissing(a, d);
    NoneMissing(c, d);
    OneMissing("conductor_class", d);
    OneMissing("insulation_thickness", d);
    MissingFromAppend(a, b + (c + e), d);
    MissingFromAppend(b, c + e, d);
    MissingFromAppend(c, e, d);
  }

  /** DESIGN-002 lacks its conductor class and insulation thickness, in that order. */
  lemma Design002Missing()
    ensures MissingAttributes(DesignDatabase["DESIGN-002"]) == ["conductor_class", "insulation_thickness"]
  {
    Design002Absent();
  }
}
