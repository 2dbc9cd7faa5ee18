/** The fixed attribute list and the in-memory design table used when no database session is given. */
module Constants {

  import opened Json
  import opened Lists

  /** `REQUIRED_ATTRIBUTES`, in its fixed order. */
  const RequiredAttributes: seq<string> := [
    "standard",
    "voltage",
    "conductor_material",
    "conductor_class",
    "csa",
    "insulation_material",
    "insulation_thickness"
  ]

  const Design001: Object := map[
    "standard" := Str("IEC 60502-1"),
    "voltage" := Str("0.6/1 kV"),
    "conductor_material" := Str("Cu"),
    "conductor_class" := Str("Class 2"),
    "csa" := Num(10.0),
    "insulation_material" := Str("PVC"),
    "insulation_thickness" := Num(1.0)
  ]

  /** DESIGN-002 lacks its conductor class and insulation thickness. */
  const Design002: Object := map[
    "standard" := Str("IEC 60502-1"),
    "voltage" := Str("0.6/1 kV"),
    "conductor_material" := Str("Cu"),
    "conductor_class" := Null,
    "csa" := Num(16.0),
    "insulation_material" := Str("PVC"),
    "insulation_thickness" := Null
  ]

  /** `DESIGN_DATABASE`. */
  const DesignDatabase: map<string, Object> := map["DESIGN-001" := Design001, "DESIGN-002" := Design002]

  /** The set of required names. */
  function RequiredSet(): (r: set<string>)
    ensures forall f :: f in r <==> f in RequiredAttributes
  {
    set f | f in RequiredAttributes
  }

  /** Seven pairwise distinct names. */
  lemma RequiredAttributesDistinct()
    ensures |RequiredAttributes| == 7 && NoDup(RequiredAttributes)
    ensures |RequiredSet()| == 7
  {
    var s := RequiredSet();
    assert s == {"standard", "voltage", "conductor_material", "conductor_class", "csa",
                 "insulation_material", "insulation_thickness"};
  }

  /** The required names, written out. */
  lemma RequiredSetNames()
    ensures RequiredSet() == {"standard", "voltage", "conductor_material", "conductor_class", "csa",
                              "insulation_material", "insulation_thickness"}
  {
  }

  /** Every record of the table has exactly the seven required keys. */
  lemma DesignRecordsComplete()
    ensures forall k :: k in DesignDatabase ==> DesignDatabase[k].Keys == RequiredSet()
  {
    var s := RequiredSet();
    assert s == {"standard", "voltage", "conductor_material", "conductor_class", "csa",
                 "insulation_material", "insulation_thickness"};
  }
}
