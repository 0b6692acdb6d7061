/** The runtime type guards. */
module Guards {
  import opened JsValues

  /** `isObject`: `typeof` says "object", and the value is neither `null`
      nor an array. */
  function IsObject(v: JsValue): (r: bool)
    ensures r <==> v.Obj?
  {
    TypeOf(v) == "object" && v != Null && !IsArray(v)
  }

  /** `isComparable`: an object with a `compareTo` or an `equals` property,
      own or inherited; one of the two suffices. */
  function IsComparable(v: JsValue): (r: bool)
    ensures r ==> IsObject(v)
    ensures r <==> v.Obj? && {"compareTo", "equals"} * (v.keys + v.inherited) != {}
  {
    if IsObject(v) then
      var wanted := {"compareTo", "equals"} * (v.keys + v.inherited);
      assert HasProperty(v, "compareTo") <==> "compareTo" in wanted;
      assert HasProperty(v, "equals") <==> "equals" in wanted;
      assert wanted != {} ==> "compareTo" in wanted || "equals" in wanted;
      HasProperty(v, "compareTo") || HasProperty(v, "equals")
    else
      false
  }

  /** What the guards answer for the values they are documented against. */
  lemma GuardExamples()
    ensures IsObject(Obj({}, {}))
    ensures !IsObject(Arr([])) && !IsObject(Null)
    ensures IsComparable(Obj({"equals"}, {}))
    ensures IsComparable(Obj({}, {"compareTo"}))
    ensures !IsComparable(Obj({}, {}))
    ensures !IsComparable(Str("")) && !IsComparable(Arr([])) && !IsComparable(Null)
  {
  }
}
