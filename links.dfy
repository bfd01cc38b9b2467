/** Link values: `{ sys: { type: "Link", linkType: <kind>, id: <id> } }`.
    A value is a link of a kind exactly when both markers are present with the
    right strings; every other shape, malformed ones included, is plain data. */
module Links {
  import opened Json
  import opened Failures

  /** `v?.sys?.type === "Link" && v?.sys?.linkType === kind`. */
  predicate IsLinkOf(v: Value, kind: string) {
    var sys := Prop(v, "sys");
    Prop(sys, "type") == Str("Link") && Prop(sys, "linkType") == Str(kind)
  }

  /** What the optional chains in the link test read: a value is a link of
      `kind` exactly when it is an object with a `sys` object whose `type` is
      "Link" and whose `linkType` is `kind`; on anything else (`undefined`,
      a string, an object without `sys`, ...) the chain yields `undefined`. */
  lemma LinkShape(v: Value, kind: string)
    ensures IsLinkOf(v, kind) <==>
              && v.Obj? && "sys" in v.props && v.props["sys"].Obj?
              && var sys := v.props["sys"].props;
                 && "type" in sys && sys["type"] == Str("Link")
                 && "linkType" in sys && sys["linkType"] == Str(kind)
  {
  }

  /** A link is a plain object whose `sys` is a plain object. */
  lemma LinkHasSys(v: Value, kind: string)
    requires IsLinkOf(v, kind)
    ensures v.Obj? && "sys" in v.props && v.props["sys"].Obj?
  {
  }

  /** No value is a link of two kinds. */
  lemma LinkKindsExclusive(v: Value)
    ensures !(IsLinkOf(v, "Entry") && IsLinkOf(v, "Asset"))
  {
  }

  /** `v?.sys.id`: the id a link points at (any value, `undefined` if absent). */
  function LinkTarget(v: Value): Value {
    Prop(Prop(v, "sys"), "id")
  }

  /** `v.sys.id = id`, the in-place rewrite of a link's target. The copier
      only applies it to links, whose `sys` is an object; elsewhere it is the
      identity. */
  function SetLinkId(v: Value, id: Value): (r: Value)
    ensures Prop(v, "sys").Obj? ==>
              && r.Obj? && r.props.Keys == v.props.Keys
              && (forall k :: k in v.props && k != "sys" ==> r.props[k] == v.props[k])
              && Prop(r, "sys").Obj?
              && Prop(r, "sys").props.Keys == Prop(v, "sys").props.Keys + {"id"}
              && (forall k :: k in Prop(v, "sys").props && k != "id" ==>
                    Prop(r, "sys").props[k] == Prop(v, "sys").props[k])
              && LinkTarget(r) == id
  {
    if Prop(v, "sys").Obj? then
      var sys := v.props["sys"];
      Obj(v.props["sys" := Obj(sys.props["id" := id])])
    else v
  }

  /** Rewriting the target keeps the link's kind, whatever the new id. */
  lemma SetLinkIdKeepsKind(v: Value, id: Value, kind: string)
    ensures IsLinkOf(SetLinkId(v, id), kind) <==> IsLinkOf(v, kind)
  {
  }

  /** The destructuring `const { sys: { id } } = v`: a `TypeError` when `v` is
      `undefined` or `null`, or when `v.sys` is; otherwise `v.sys.id`. */
  function DestructureSysId(v: Value): (r: Result<Value>)
    ensures r.Failure? ==> r.error == CannotDestructure
    ensures r.Success? ==> r.value == LinkTarget(v)
    ensures r.Failure? <==> v.Undefined? || v.Null? || Prop(v, "sys").Undefined? || Prop(v, "sys").Null?
  {
    if v.Undefined? || v.Null? then Failure(CannotDestructure)
    else
      var sys := Prop(v, "sys");
      if sys.Undefined? || sys.Null? then Failure(CannotDestructure)
      else Success(Prop(sys, "id"))
  }
}
