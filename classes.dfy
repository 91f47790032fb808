/**
 * `GET /classes`: every class that still has a free place, with its start
 * time rendered in the requested timezone.
 */
module Classes {
  import opened Wrappers
  import opened Utils
  import opened Api
  import opened Db

  datatype ClassView = ClassView(id: int, name: string, datetime: string, instructor: string, availableSlots: int)

  /** One row of the response: every field copied, the start time rendered in `zone`. */
  function View(c: ClassRow, zone: string, zones: Zones): ClassView {
    ClassView(c.id, c.name, zones.convert(c.datetime, zone), c.instructor, c.availableSlots)
  }

  /**
   * `SELECT * FROM classes WHERE available_slots > 0`, each row rendered:
   * exactly the classes with a free place, and nothing else.
   */
  function Available(classes: seq<ClassRow>, zone: string, zones: Zones): (r: seq<ClassView>)
    ensures |r| <= |classes|
    ensures forall v :: v in r ==> v.availableSlots > 0
    ensures forall v :: v in r ==> exists c :: c in classes && c.availableSlots > 0 && v == View(c, zone, zones)
    ensures forall c :: c in classes && c.availableSlots > 0 ==> View(c, zone, zones) in r
  {
    if |classes| == 0 then []
    else
      var rest := Available(classes[1..], zone, zones);
      assert forall c :: c in classes[1..] ==> c in classes;
      if classes[0].availableSlots > 0 then [View(classes[0], zone, zones)] + rest else rest
  }

  /**
   * The handler: an unknown zone is an error instead of a list (see
   * `Api.Status`); otherwise the list of
   * available classes, which may be empty.
   */
  function ListClasses(t: Tables, tz: Option<string>, zones: Zones): (r: Result<seq<ClassView>>)
    ensures r.Err? <==> !zones.known(ZoneOrDefault(tz))
    ensures r.Err? ==> r.error == InvalidTimezone(ZoneOrDefault(tz))
    ensures r.Ok? ==> forall v :: v in r.value ==> v.availableSlots > 0
    ensures r.Ok? ==> forall v :: v in r.value ==>
              exists c :: c in t.classes && c.availableSlots > 0 && v == View(c, ZoneOrDefault(tz), zones)
    ensures r.Ok? ==> forall c :: c in t.classes && c.availableSlots > 0 ==> View(c, ZoneOrDefault(tz), zones) in r.value
  {
    var zone := ZoneOrDefault(tz);
    var rows := Available(t.classes, zone, zones);
    if !zones.known(zone) then Err(InvalidTimezone(zone)) else Ok(rows)
  }

  /** The ids of the classes with a free place. */
  function AvailableIds(classes: seq<ClassRow>): set<int> {
    set c | c in classes && c.availableSlots > 0 :: c.id
  }

  /** The ids of the classes with a free place, split into the first row and the rest. */
  lemma AvailableIdsSplit(classes: seq<ClassRow>)
    requires |classes| > 0
    ensures AvailableIds(classes) ==
            (if classes[0].availableSlots > 0 then {classes[0].id} else {}) + AvailableIds(classes[1..])
  {
    assert forall c :: c in classes <==> c == classes[0] || c in classes[1..];
  }

  /** With increasing ids, the first row's id is not among the others. */
  lemma FirstIdNotInRest(classes: seq<ClassRow>)
    requires |classes| > 0
    requires ClassIdsIncreasing(classes)
    ensures classes[0].id !in AvailableIds(classes[1..])
  {
    forall c | c in classes[1..]
      ensures c.id != classes[0].id
    {
      var j :| 0 <= j < |classes| - 1 && classes[1..][j] == c;
      assert classes[j + 1] == c;
    }
  }

  /** With unique ids the list has one entry per class with a free place. */
  lemma {:induction false} AvailableCount(classes: seq<ClassRow>, zone: string, zones: Zones)
    requires ClassIdsIncreasing(classes)
    ensures |Available(classes, zone, zones)| == |AvailableIds(classes)|
  {
    if |classes| > 0 {
      var tail := classes[1..];
      assert ClassIdsIncreasing(tail);
      AvailableCount(tail, zone, zones);
      AvailableIdsSplit(classes);
      FirstIdNotInRest(classes);
    }
  }

  /** With an unknown zone nothing is listed; with a known one the count is that of the available classes. */
  lemma ListClassesCount(t: Tables, tz: Option<string>, zones: Zones)
    requires ClassIdsIncreasing(t.classes)
    requires zones.known(ZoneOrDefault(tz))
    ensures ListClasses(t, tz, zones).Ok?
    ensures |ListClasses(t, tz, zones).value| == |AvailableIds(t.classes)|
  {
    AvailableCount(t.classes, ZoneOrDefault(tz), zones);
  }
}
