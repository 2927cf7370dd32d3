/**
 * The entities that sit on the family tree: the rank (semester) getter that
 * refuses an unset or falsy value, decorative `Custom` entities, the
 * placeholder parent `UnidentifiedInitiate` one rank before its member, and
 * members whose DOT attributes are just their label.
 */
module Entity {
  import opened Wrappers
  import opened Dot

  /** `TreeEntityAttributeError`, naming the entity's key. */
  datatype EntityError = MissingSemester(key: string)

  /**
   * The `semester` getter: the stored value when it is truthy. `None` and a
   * stored 0 are both falsy, so both raise.
   */
  function ReadSemester(key: string, stored: Option<int>): (r: Result<int, EntityError>)
    ensures r.Ok? <==> stored.Some? && stored.value != 0
    ensures r.Ok? ==> r.value == stored.value
    ensures r.Err? ==> r.error == MissingSemester(key)
  {
    if stored.Some? && stored.value != 0 then Ok(stored.value)
    else Err(MissingSemester(key))
  }

  /** The key of a member's placeholder parent: "<member key> Parent". */
  function PlaceholderKey(memberKey: string): (k: string)
    ensures |k| == |memberKey| + 7
    ensures k[..|memberKey|] == memberKey && k[|memberKey|..] == " Parent"
  {
    memberKey + " Parent"
  }

  /**
   * The placeholder's stored semester: one before the member's, or nothing
   * when reading the member's semester raises.
   */
  function PlaceholderSemester(memberKey: string, memberStored: Option<int>): (s: Option<int>)
    ensures s.Some? <==> ReadSemester(memberKey, memberStored).Ok?
    ensures s.Some? ==> s.value == memberStored.value - 1
  {
    match ReadSemester(memberKey, memberStored)
    case Ok(v) => Some(v - 1)
    case Err(_) => None
  }

  /** `attributes or {}`: a missing or empty dictionary both give `{}`. */
  function AttributesOrEmpty(attributes: Option<Attrs>): (a: Attrs)
    ensures attributes.Some? ==> a == attributes.value
    ensures attributes.None? ==> a == map[]
  {
    match attributes
    case Some(x) => x
    case None => map[]
  }

  /** A member's DOT attributes: exactly its label. */
  function MemberDotAttributes(dotLabel: string): (a: Attrs)
    ensures a.Keys == {"label"} && a["label"] == Text(dotLabel)
  {
    map["label" := Text(dotLabel)]
  }

  /** What an entity is: decoration with its own attributes, or a member with a label. */
  datatype Kind =
    | CustomKind(attributes: Attrs)
    | MemberKind(dotLabel: string, parent: Option<string>)

  /**
   * A tree entity: a key, the stored (possibly unset) semester, and its kind.
   * This is the object form of an entity, with the constructors and
   * properties of `snutree/entity.py`; the tree itself keeps the same data as
   * the `TreeGraph.TreeEntity` value, whose key, semester and kind these
   * fields mirror.
   */
  class TreeEntity {
    var key: string
    var storedSemester: Option<int>
    var kind: Kind

    /** `Custom(key, semester=None, attributes=None)` */
    constructor Custom(key: string, semester: Option<int>, attributes: Option<Attrs>)
      ensures this.key == key && storedSemester == semester
      ensures kind == CustomKind(AttributesOrEmpty(attributes))
    {
      this.key := key;
      this.storedSemester := semester;
      this.kind := CustomKind(AttributesOrEmpty(attributes));
    }

    /** `UnidentifiedInitiate(member, attributes=None)` */
    constructor UnidentifiedInitiate(member: TreeEntity, attributes: Option<Attrs>)
      ensures key == PlaceholderKey(member.key)
      ensures storedSemester == PlaceholderSemester(member.key, member.storedSemester)
      ensures kind == CustomKind(AttributesOrEmpty(attributes))
    {
      key := PlaceholderKey(member.key);
      storedSemester := PlaceholderSemester(member.key, member.storedSemester);
      kind := CustomKind(AttributesOrEmpty(attributes));
    }

    /** A member with its label and the key of its parent, if any. */
    constructor Member(key: string, semester: Option<int>, dotLabel: string, parent: Option<string>)
      ensures this.key == key && storedSemester == semester
      ensures kind == MemberKind(dotLabel, parent)
    {
      this.key := key;
      this.storedSemester := semester;
      this.kind := MemberKind(dotLabel, parent);
    }

    /** The `semester` property. */
    function Semester(): (r: Result<int, EntityError>)
      reads this
      ensures r.Ok? <==> storedSemester.Some? && storedSemester.value != 0
      ensures r.Ok? ==> r.value == storedSemester.value
      ensures r.Err? ==> r.error == MissingSemester(key)
    {
      ReadSemester(key, storedSemester)
    }

    /** The `semester` setter: stores the value as given, even a falsy one. */
    method SetSemester(value: Option<int>)
      modifies this
      ensures storedSemester == value
      ensures key == old(key) && kind == old(kind)
    {
      storedSemester := value;
    }

    /** `dot_attributes()`: a custom entity's own attributes, or a member's label. */
    function DotAttributes(): (a: Attrs)
      reads this
      ensures kind.CustomKind? ==> a == kind.attributes
      ensures kind.MemberKind? ==> a == MemberDotAttributes(kind.dotLabel)
    {
      match kind
      case CustomKind(attributes) => attributes
      case MemberKind(l, _) => MemberDotAttributes(l)
    }
  }

  /**
   * The placeholder sits exactly one semester before a member whose semester
   * is set; a member without one gives a placeholder whose own getter raises.
   */
  lemma PlaceholderOneBefore(memberKey: string, memberStored: Option<int>)
    ensures ReadSemester(memberKey, memberStored).Ok? && memberStored.value != 1 ==>
      ReadSemester(PlaceholderKey(memberKey), PlaceholderSemester(memberKey, memberStored)) ==
      Ok(memberStored.value - 1)
    ensures ReadSemester(memberKey, memberStored).Err? ==>
      ReadSemester(PlaceholderKey(memberKey), PlaceholderSemester(memberKey, memberStored)) ==
      Err(MissingSemester(PlaceholderKey(memberKey)))
  {
  }

  /**
   * A member at semester 1 gets a placeholder stored at 0, which is falsy:
   * reading the placeholder's semester raises although it was set.
   */
  lemma PlaceholderOfSemesterOneIsUnset(memberKey: string)
    ensures PlaceholderSemester(memberKey, Some(1)) == Some(0)
    ensures ReadSemester(PlaceholderKey(memberKey), Some(0)).Err?
  {
  }

  /** A placeholder's key is never its member's key. */
  lemma PlaceholderKeyIsNew(memberKey: string)
    ensures PlaceholderKey(memberKey) != memberKey
  {
  }
}
