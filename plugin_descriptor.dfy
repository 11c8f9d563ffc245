/**
 * A plugin descriptor: the metadata of one installable plugin, its sort order
 * (display order first, then friendly name) and its identity (the system name).
 */
module Plugins {
  import opened DotNet

  /** The descriptor's data properties; `None` is a null reference. */
  datatype PluginDescriptor = PluginDescriptor(
    group: Option<string>,
    friendlyName: Option<string>,
    systemName: Option<string>,
    version: Option<string>,
    supportedVersions: seq<string>,
    author: Option<string>,
    displayOrder: int32,
    assemblyFileName: Option<string>,
    description: Option<string>,
    limitedToStores: seq<int32>,
    limitedToCustomerRoles: seq<int32>,
    installed: bool)

  /** The parameterless constructor: three empty lists, every other property at its default. */
  function NewDescriptor(): (d: PluginDescriptor)
    ensures d.supportedVersions == [] && d.limitedToStores == [] && d.limitedToCustomerRoles == []
    ensures d.group.None? && d.friendlyName.None? && d.systemName.None? && d.version.None?
    ensures d.author.None? && d.assemblyFileName.None? && d.description.None?
    ensures d.displayOrder == 0 && !d.installed
  {
    PluginDescriptor(None, None, None, None, [], None, 0, None, None, [], [], false)
  }

  /** Int32.CompareTo. */
  function CompareInt(a: int32, b: int32): int {
    if a < b then -1 else if a > b then 1 else 0
  }

  /** The sign of String.Compare(a, b, StringComparison.Ordinal), where null sorts first. */
  function CompareNullable(a: Option<string>, b: Option<string>): int {
    match (a, b)
    case (None, None) => 0
    case (None, Some(_)) => -1
    case (Some(_), None) => 1
    case (Some(x), Some(y)) => CompareOrdinal(x, y)
  }

  /** IComparable<PluginDescriptor>.CompareTo: display order, then friendly name. */
  function CompareTo(d: PluginDescriptor, other: PluginDescriptor): (r: int)
    ensures -1 <= r <= 1
    ensures r == 0 <==> d.displayOrder == other.displayOrder && d.friendlyName == other.friendlyName
  {
    if d.displayOrder != other.displayOrder then CompareInt(d.displayOrder, other.displayOrder)
    else CompareNullable(d.friendlyName, other.friendlyName)
  }

  /** `d` sorts no later than `other`. */
  predicate SortsBefore(d: PluginDescriptor, other: PluginDescriptor) {
    CompareTo(d, other) <= 0
  }

  /** A different display order decides the comparison, whatever the friendly names. */
  lemma CompareToByDisplayOrder(d: PluginDescriptor, other: PluginDescriptor)
    requires d.displayOrder != other.displayOrder
    ensures CompareTo(d, other) < 0 <==> d.displayOrder < other.displayOrder
    ensures CompareTo(d, other) > 0 <==> d.displayOrder > other.displayOrder
  {
  }

  /** With equal display orders the friendly names decide, ordinally, null first. */
  lemma CompareToByFriendlyName(d: PluginDescriptor, other: PluginDescriptor)
    requires d.displayOrder == other.displayOrder
    ensures CompareTo(d, other) == 0 <==> d.friendlyName == other.friendlyName
    ensures d.friendlyName.Some? && other.friendlyName.Some? ==>
      CompareTo(d, other) == CompareOrdinal(d.friendlyName.value, other.friendlyName.value)
    ensures d.friendlyName.None? && other.friendlyName.Some? ==> CompareTo(d, other) < 0
  {
  }

  lemma CompareToReflexive(d: PluginDescriptor)
    ensures CompareTo(d, d) == 0
  {
  }

  /** Swapping the two descriptors flips the sign. */
  lemma CompareToAntisymmetric(d: PluginDescriptor, other: PluginDescriptor)
    ensures CompareTo(other, d) == -CompareTo(d, other)
  {
    if d.displayOrder == other.displayOrder && d.friendlyName.Some? && other.friendlyName.Some? {
      CompareOrdinalAntisymmetric(d.friendlyName.value, other.friendlyName.value);
    }
  }

  lemma CompareToTransitive(a: PluginDescriptor, b: PluginDescriptor, c: PluginDescriptor)
    requires CompareTo(a, b) <= 0 && CompareTo(b, c) <= 0
    ensures CompareTo(a, c) <= 0
  {
    if a.displayOrder == b.displayOrder == c.displayOrder
      && a.friendlyName.Some? && b.friendlyName.Some? && c.friendlyName.Some?
    {
      CompareOrdinalTransitive(a.friendlyName.value, b.friendlyName.value, c.friendlyName.value);
    }
  }

  /** CompareTo induces a total preorder on descriptors. */
  lemma SortsBeforeIsTotalPreorder()
    ensures forall d :: SortsBefore(d, d)
    ensures forall d, e :: SortsBefore(d, e) || SortsBefore(e, d)
    ensures forall d, e, f :: SortsBefore(d, e) && SortsBefore(e, f) ==> SortsBefore(d, f)
  {
    forall d, e ensures SortsBefore(d, e) || SortsBefore(e, d) {
      CompareToAntisymmetric(d, e);
    }
    forall d, e, f | SortsBefore(d, e) && SortsBefore(e, f) ensures SortsBefore(d, f) {
      CompareToTransitive(d, e, f);
    }
  }

  /**
   * Object.Equals: `value` is the other object, None when it is null or not a
   * descriptor. Null-aware on both sides: a null system name is equal to nothing.
   */
  predicate Equals(d: PluginDescriptor, value: Option<PluginDescriptor>)
    ensures Equals(d, value) ==> d.systemName.Some? && value.Some? && value.value.systemName == d.systemName
  {
    match d.systemName
    case None => false
    case Some(name) =>
      match value
      case None => false
      case Some(other) => other.systemName == Some(name)
  }

  /** Equals compares system names, ordinally, and only non-null ones. */
  lemma EqualsIff(d: PluginDescriptor, value: Option<PluginDescriptor>)
    ensures Equals(d, value) <==>
      d.systemName.Some? && value.Some? && value.value.systemName == d.systemName
  {
  }

  /** A descriptor without a system name does not equal even itself. */
  lemma EqualsReflexiveIffNamed(d: PluginDescriptor)
    ensures Equals(d, Some(d)) <==> d.systemName.Some?
  {
  }

  /** Among descriptors, Equals is symmetric and transitive. */
  lemma EqualsSymmetricTransitive(a: PluginDescriptor, b: PluginDescriptor, c: PluginDescriptor)
    ensures Equals(a, Some(b)) ==> Equals(b, Some(a))
    ensures Equals(a, Some(b)) && Equals(b, Some(c)) ==> Equals(a, Some(c))
  {
  }

  /**
   * Object.GetHashCode: the system name's hash. `stringHash` stands for
   * String.GetHashCode; a null system name throws.
   */
  function GetHashCode(d: PluginDescriptor, stringHash: string -> int32): (r: Result<int32>)
    ensures r.Failure? <==> d.systemName.None?
  {
    match d.systemName
    case None => Failure(NullReferenceException)
    case Some(name) => Success(stringHash(name))
  }

  /** Descriptors that are Equals have the same hash code, and computing it does not throw. */
  lemma HashCodeConsistentWithEquals(a: PluginDescriptor, b: PluginDescriptor, stringHash: string -> int32)
    requires Equals(a, Some(b))
    ensures GetHashCode(a, stringHash).Success?
    ensures GetHashCode(a, stringHash) == GetHashCode(b, stringHash)
  {
  }

  /** Object.ToString: the friendly name (null when it is null). */
  function ToString(d: PluginDescriptor): (r: Option<string>)
    ensures r == d.friendlyName
  {
    d.friendlyName
  }
}
