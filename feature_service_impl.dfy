/**
 * The feature lookup service: an immutable snapshot of which feature each
 * installed bundle belongs to, and of the distinct feature names.
 */
module FeatureService {
  import opened Wrappers

  /** A Java `long` bundle id. */
  type Long = x: int | -0x8000_0000_0000_0000 <= x < 0x8000_0000_0000_0000

  class FeatureServiceImpl {
    /** The distinct feature names. */
    const features: set<string>
    /** Bundle id to feature name. */
    const bundleFeatureMap: map<Long, string>

    /** The listed features are exactly the names some bundle maps to. */
    ghost predicate Valid()
    {
      features == bundleFeatureMap.Values
    }

    /**
     * Snapshots `bundleIDFeatures`: a Dafny map is a value, so later changes
     * a caller makes to its own map cannot reach the stored one, and both
     * fields are constants.
     */
    constructor (bundleIDFeatures: map<Long, string>)
      ensures Valid()
      ensures bundleFeatureMap == bundleIDFeatures
      ensures features == bundleIDFeatures.Values
    {
      bundleFeatureMap := bundleIDFeatures;
      features := bundleIDFeatures.Values;
    }

    /** `listFeatures`: a name is listed iff some bundle maps to it. */
    function ListFeatures(): (r: set<string>)
      requires Valid()
      ensures forall f :: f in r <==> exists b :: b in bundleFeatureMap && bundleFeatureMap[b] == f
    {
      features
    }

    /** `getFeatureForBundle`: the bundle's feature, or None (Java's null) for an unknown bundle. */
    function GetFeatureForBundle(bundleId: Long): (r: Option<string>)
      requires Valid()
      ensures r.Some? <==> bundleId in bundleFeatureMap
      ensures r.Some? ==> r.value == bundleFeatureMap[bundleId]
      ensures r.Some? ==> r.value in ListFeatures()
    {
      if bundleId in bundleFeatureMap then Some(bundleFeatureMap[bundleId]) else None
    }
  }

  /** Every listed feature is the answer for at least one bundle. */
  lemma ListedFeatureHasBundle(service: FeatureServiceImpl, f: string)
    requires service.Valid() && f in service.ListFeatures()
    ensures exists b :: service.GetFeatureForBundle(b) == Some(f)
  {
    var b :| b in service.bundleFeatureMap && service.bundleFeatureMap[b] == f;
    assert service.GetFeatureForBundle(b) == Some(f);
  }

  /** Duplicate names collapse: no more features are listed than there are bundles. */
  lemma FeatureCountAtMostBundleCount(service: FeatureServiceImpl)
    requires service.Valid()
    ensures |service.ListFeatures()| <= |service.bundleFeatureMap|
  {
  }
}
