/**
 * The `designs` table row and its `to_dict` projection onto the seven attributes
 * (backend/app/models/design.py).
 */
module DesignModel {

  import opened Wrappers
  import opened Json
  import opened Constants

  /** A row: the id, five nullable text columns, two nullable float columns and two timestamps. */
  datatype Design = Design(
    id: string,
    standard: Option<string>,
    voltage: Option<string>,
    conductorMaterial: Option<string>,
    conductorClass: Option<string>,
    csa: Option<real>,
    insulationMaterial: Option<string>,
    insulationThickness: Option<real>,
    createdAt: int,
    updatedAt: int)

  function TextValue(v: Option<string>): Json
  {
    match v
    case None => Null
    case Some(s) => Str(s)
  }

  function NumberValue(v: Option<real>): Json
  {
    match v
    case None => Null
    case Some(n) => Num(n)
  }

  /** `Design.to_dict()`: the seven attributes, with null columns as `Null`. */
  function ToDict(d: Design): (r: Object)
    ensures r.Keys == RequiredSet()
  {
    map["standard" := TextValue(d.standard),
        "voltage" := TextValue(d.voltage),
        "conductor_material" := TextValue(d.conductorMaterial),
        "conductor_class" := TextValue(d.conductorClass),
        "csa" := NumberValue(d.csa),
        "insulation_material" := TextValue(d.insulationMaterial),
        "insulation_thickness" := NumberValue(d.insulationThickness)]
  }

  /** Each attribute holds its column: text columns as strings, float columns as numbers, null columns as `Null`. */
  lemma ToDictValues(d: Design)
    ensures var r := ToDict(d);
      && r["standard"] == TextValue(d.standard)
      && r["voltage"] == TextValue(d.voltage)
      && r["conductor_material"] == TextValue(d.conductorMaterial)
      && r["conductor_class"] == TextValue(d.conductorClass)
      && r["csa"] == NumberValue(d.csa)
      && r["insulation_material"] == TextValue(d.insulationMaterial)
      && r["insulation_thickness"] == NumberValue(d.insulationThickness)
  {
  }

  /** Reads a text column back; anything other than a string or null does not fit. */
  function TextColumn(v: Json): Option<Option<string>>
  {
    match v
    case Null => Some(None)
    case Str(s) => Some(Some(s))
    case _ => None
  }

  /** Reads a float column back. */
  function NumberColumn(v: Json): Option<Option<real>>
  {
    match v
    case Null => Some(None)
    case Num(n) => Some(Some(n))
    case _ => None
  }

  /**
   * `Design(id=..., **attributes)` as the seeding script builds a row: the seven
   * attributes plus the id and timestamps, which the dictionary does not carry.
   */
  function FromDict(id: string, createdAt: int, updatedAt: int, a: Object): Option<Design>
  {
    if a.Keys != RequiredSet() then None
    else
      RequiredSetNames();
      var standard := TextColumn(a["standard"]);
      var voltage := TextColumn(a["voltage"]);
      var material := TextColumn(a["conductor_material"]);
      var condClass := TextColumn(a["conductor_class"]);
      var csa := NumberColumn(a["csa"]);
      var insulation := TextColumn(a["insulation_material"]);
      var thickness := NumberColumn(a["insulation_thickness"]);
      if standard.None? || voltage.None? || material.None? || condClass.None? || csa.None?
         || insulation.None? || thickness.None? then None
      else
        Some(Design(id, standard.value, voltage.value, material.value, condClass.value, csa.value,
                    insulation.value, thickness.value, createdAt, updatedAt))
  }

  /**
   * `to_dict` loses exactly the id and the timestamps: every column value, null or not,
   * comes back unchanged.
   */
  lemma ToDictRoundTrip(d: Design)
    ensures FromDict(d.id, d.createdAt, d.updatedAt, ToDict(d)) == Some(d)
  {
  }

  /** A row seeded from a table record projects back to that very record. */
  lemma SeededRowsProjectBack(k: string)
    requires k in DesignDatabase
    ensures FromDict(k, 0, 0, DesignDatabase[k]).Some?
    ensures ToDict(FromDict(k, 0, 0, DesignDatabase[k]).value) == DesignDatabase[k]
  {
    var d;
    if k == "DESIGN-001" {
      d := Design(k, Some("IEC 60502-1"), Some("0.6/1 kV"), Some("Cu"), Some("Class 2"), Some(10.0),
                  Some("PVC"), Some(1.0), 0, 0);
    } else {
      d := Design(k, Some("IEC 60502-1"), Some("0.6/1 kV"), Some("Cu"), None, Some(16.0),
                  Some("PVC"), None, 0, 0);
    }
    assert ToDict(d) == DesignDatabase[k];
    ToDictRoundTrip(d);
  }
}
