/**
  The database keys of the report stores, which write to one string-keyed
  database.  The keys alone keep the entries of different resources and of
  different API versions apart; two stores of one version would share theirs.
 */
module Keys {

  /** A group and version, printed as `group/version` in a key. */
  datatype GroupVersion = GroupVersion(group: string, version: string) {
    predicate Valid() {
      SlashFree(group) && SlashFree(version)
    }
  }

  const WG_POLICY := "wgpolicyk8s.io"
  const V1ALPHA1 := GroupVersion(WG_POLICY, "v1alpha1")
  const V1ALPHA2 := GroupVersion(WG_POLICY, "v1alpha2")
  const V1BETA1 := GroupVersion(WG_POLICY, "v1beta1")

  predicate SlashFree(s: string) {
    '/' !in s
  }

  function Under(gv: GroupVersion, tail: string): string {
    "/apis/" + (gv.group + "/" + (gv.version + "/" + tail))
  }

  function NamespacedTail(namespace: string, name: string): string {
    "namespaces/" + (namespace + "/" + ("policyreports/" + name))
  }

  function Key(gv: GroupVersion, name: string, namespace: string): string {
    Under(gv, NamespacedTail(namespace, name))
  }

  function KeyForList(gv: GroupVersion, namespace: string): string {
    Under(gv, NamespacedTail(namespace, ""))
  }

  function ClusterKey(gv: GroupVersion, name: string): string {
    Under(gv, "clusterpolicyreports/" + name)
  }

  function ClusterKeyForList(gv: GroupVersion): string {
    Under(gv, "clusterpolicyreports/")
  }

  /** The part of the database that belongs to the namespaced reports of `gv`. */
  function NamespacedRoot(gv: GroupVersion): string {
    Under(gv, "namespaces/")
  }

  lemma StripCommon(p: string, x: string, y: string)
    ensures p + x <= p + y <==> x <= y
  {
    assert (p + x)[|p|..] == x && (p + y)[|p|..] == y;
    if p + x <= p + y {
      assert forall i :: 0 <= i < |x| ==> x[i] == (p + x)[|p| + i] == (p + y)[|p| + i] == y[i];
    }
  }

  /** A slash-free segment ends at the first slash, so it can be read back. */
  lemma CutAtSlash(a: string, x: string, b: string, y: string)
    requires SlashFree(a) && SlashFree(b)
    ensures a + "/" + x <= b + "/" + y <==> a == b && x <= y
  {
    var l, r := a + "/" + x, b + "/" + y;
    assert l[|a|] == '/' && r[|b|] == '/';
    assert |a| < |b| ==> r[|a|] == b[|a|] != '/';
    assert |b| < |a| ==> l[|b|] == a[|b|] != '/';
    if l <= r && |a| == |b| {
      assert forall i :: 0 <= i < |a| ==> a[i] == l[i] == r[i] == b[i];
    }
    StripCommon(a + "/", x, y);
  }

  lemma UnderPrefix(gv1: GroupVersion, t1: string, gv2: GroupVersion, t2: string)
    requires gv1.Valid() && gv2.Valid()
    ensures Under(gv1, t1) <= Under(gv2, t2) <==> gv1 == gv2 && t1 <= t2
  {
    var v1, v2 := gv1.version + "/" + t1, gv2.version + "/" + t2;
    StripCommon("/apis/", gv1.group + "/" + v1, gv2.group + "/" + v2);
    CutAtSlash(gv1.group, v1, gv2.group, v2);
    CutAtSlash(gv1.version, t1, gv2.version, t2);
  }

  lemma TailPrefix(ns1: string, n1: string, ns2: string, n2: string)
    requires SlashFree(ns1) && SlashFree(ns2)
    ensures NamespacedTail(ns1, n1) <= NamespacedTail(ns2, n2) <==> ns1 == ns2 && n1 <= n2
  {
    StripCommon("namespaces/", ns1 + "/" + ("policyreports/" + n1), ns2 + "/" + ("policyreports/" + n2));
    CutAtSlash(ns1, "policyreports/" + n1, ns2, "policyreports/" + n2);
    StripCommon("policyreports/", n1, n2);
  }

  /** Distinct reports have distinct keys, whatever the names contain. */
  lemma KeyInjective(gv1: GroupVersion, n1: string, ns1: string, gv2: GroupVersion, n2: string, ns2: string)
    requires gv1.Valid() && gv2.Valid() && SlashFree(ns1) && SlashFree(ns2)
    ensures Key(gv1, n1, ns1) == Key(gv2, n2, ns2) <==> gv1 == gv2 && n1 == n2 && ns1 == ns2
  {
    UnderPrefix(gv1, NamespacedTail(ns1, n1), gv2, NamespacedTail(ns2, n2));
    UnderPrefix(gv2, NamespacedTail(ns2, n2), gv1, NamespacedTail(ns1, n1));
    TailPrefix(ns1, n1, ns2, n2);
    TailPrefix(ns2, n2, ns1, n1);
  }

  /** A listing prefix covers the keys of its own namespace and version, and no others. */
  lemma ListPrefixExact(gv1: GroupVersion, ns1: string, gv2: GroupVersion, n2: string, ns2: string)
    requires gv1.Valid() && gv2.Valid() && SlashFree(ns1) && SlashFree(ns2)
    ensures KeyForList(gv1, ns1) <= Key(gv2, n2, ns2) <==> gv1 == gv2 && ns1 == ns2
  {
    UnderPrefix(gv1, NamespacedTail(ns1, ""), gv2, NamespacedTail(ns2, n2));
    TailPrefix(ns1, "", ns2, n2);
  }

  /** Without slash-freedom two different reports can share a key. */
  lemma SlashesCollide()
    ensures Key(V1ALPHA2, "c", "a/policyreports/b") == Key(V1ALPHA2, "b/policyreports/c", "a")
  {
    assert NamespacedTail("a/policyreports/b", "c") == NamespacedTail("a", "b/policyreports/c");
  }

  /** Namespaced and cluster entries, of the same or of different versions, never meet. */
  lemma ClusterDisjoint(gv1: GroupVersion, n1: string, ns1: string, gv2: GroupVersion, n2: string)
    requires gv1.Valid() && gv2.Valid()
    ensures Key(gv1, n1, ns1) != ClusterKey(gv2, n2)
    ensures !(KeyForList(gv1, ns1) <= ClusterKey(gv2, n2))
    ensures !(ClusterKeyForList(gv2) <= Key(gv1, n1, ns1))
  {
    UnderPrefix(gv1, NamespacedTail(ns1, n1), gv2, "clusterpolicyreports/" + n2);
    UnderPrefix(gv1, NamespacedTail(ns1, ""), gv2, "clusterpolicyreports/" + n2);
    UnderPrefix(gv2, "clusterpolicyreports/", gv1, NamespacedTail(ns1, n1));
    assert NamespacedTail(ns1, n1)[0] == NamespacedTail(ns1, "")[0] == 'n';
    assert ("clusterpolicyreports/" + n2)[0] == 'c';
  }

  /** Every namespaced key lies under the root of its version; a cluster key and another version's keys do not. */
  lemma RootExact(gv1: GroupVersion, gv2: GroupVersion, n: string, ns: string)
    requires gv1.Valid() && gv2.Valid()
    ensures NamespacedRoot(gv1) <= Key(gv2, n, ns) <==> gv1 == gv2
    ensures NamespacedRoot(gv1) <= KeyForList(gv1, ns)
    ensures !(NamespacedRoot(gv1) <= ClusterKey(gv2, n))
  {
    UnderPrefix(gv1, "namespaces/", gv2, NamespacedTail(ns, n));
    UnderPrefix(gv1, "namespaces/", gv1, NamespacedTail(ns, ""));
    UnderPrefix(gv1, "namespaces/", gv2, "clusterpolicyreports/" + n);
    assert ("clusterpolicyreports/" + n)[0] == 'c';
  }

  /** The cluster listing prefix covers the cluster keys of its own version, and no others. */
  lemma ClusterPrefixExact(gv1: GroupVersion, gv2: GroupVersion, n: string)
    requires gv1.Valid() && gv2.Valid()
    ensures ClusterKeyForList(gv1) <= ClusterKey(gv2, n) <==> gv1 == gv2
  {
    UnderPrefix(gv1, "clusterpolicyreports/", gv2, "clusterpolicyreports/" + n);
  }

  /** Distinct cluster reports have distinct keys, whatever the names contain. */
  lemma ClusterKeyInjective(gv1: GroupVersion, n1: string, gv2: GroupVersion, n2: string)
    requires gv1.Valid() && gv2.Valid()
    ensures ClusterKey(gv1, n1) == ClusterKey(gv2, n2) <==> gv1 == gv2 && n1 == n2
  {
    var t1, t2 := "clusterpolicyreports/" + n1, "clusterpolicyreports/" + n2;
    UnderPrefix(gv1, t1, gv2, t2);
    UnderPrefix(gv2, t2, gv1, t1);
    StripCommon("clusterpolicyreports/", n1, n2);
    StripCommon("clusterpolicyreports/", n2, n1);
  }

  /** The other API versions are different ones. */
  lemma OtherVersionsDiffer(gv: GroupVersion)
    requires gv == V1ALPHA1 || gv == V1BETA1
    ensures gv.Valid() && gv != V1ALPHA2
  {
    assert V1ALPHA1.version[7] == '1' && V1ALPHA2.version[7] == '2' && |V1BETA1.version| < |V1ALPHA2.version|;
  }

  /** The stores of any other version keep out of the entries of this one, and out of its listings. */
  lemma OtherVersionsDisjoint(gv: GroupVersion, n1: string, ns1: string, n2: string, ns2: string)
    requires gv.Valid() && gv != V1ALPHA2
    requires SlashFree(ns1) && SlashFree(ns2)
    ensures !(NamespacedRoot(V1ALPHA2) <= Key(gv, n1, ns1)) && !(NamespacedRoot(V1ALPHA2) <= ClusterKey(gv, n1))
    ensures !(KeyForList(V1ALPHA2, ns2) <= Key(gv, n1, ns1)) && !(KeyForList(gv, ns1) <= Key(V1ALPHA2, n2, ns2))
    ensures Key(gv, n1, ns1) != Key(V1ALPHA2, n2, ns2) && ClusterKey(gv, n1) != ClusterKey(V1ALPHA2, n2)
    ensures !(ClusterKeyForList(V1ALPHA2) <= ClusterKey(gv, n1)) && !(ClusterKeyForList(gv) <= ClusterKey(V1ALPHA2, n2))
  {
    RootExact(V1ALPHA2, gv, n1, ns1);
    ListPrefixExact(V1ALPHA2, ns2, gv, n1, ns1);
    ListPrefixExact(gv, ns1, V1ALPHA2, n2, ns2);
    KeyInjective(gv, n1, ns1, V1ALPHA2, n2, ns2);
    ClusterKeyInjective(gv, n1, V1ALPHA2, n2);
    ClusterPrefixExact(V1ALPHA2, gv, n1);
    ClusterPrefixExact(gv, V1ALPHA2, n2);
  }

  lemma Regroup(a: string, b: string, c: string)
    ensures a + (b + c) == a + b + c
  {
  }

  lemma UnderIsPath(gv: GroupVersion, tail: string)
    ensures Under(gv, tail) == "/apis/" + gv.group + "/" + gv.version + "/" + tail
  {
    Regroup(gv.group + "/", gv.version + "/", tail);
    Regroup(gv.group + "/", gv.version, "/");
    Regroup("/apis/", gv.group + "/" + gv.version + "/", tail);
    Regroup("/apis/", gv.group + "/" + gv.version, "/");
    Regroup("/apis/", gv.group + "/", gv.version);
    Regroup("/apis/", gv.group, "/");
  }

  lemma TailIsPath(ns: string, n: string)
    ensures NamespacedTail(ns, n) == "namespaces/" + ns + "/" + "policyreports/" + n
  {
    Regroup(ns + "/", "policyreports/", n);
    Regroup("namespaces/", ns + "/" + "policyreports/", n);
    Regroup("namespaces/", ns + "/", "policyreports/");
    Regroup("namespaces/", ns, "/");
  }

  /** The keys as they are printed. */
  lemma KeysArePaths(n: string, ns: string)
    ensures var root := "/apis/" + "wgpolicyk8s.io" + "/" + "v1alpha2" + "/";
            && Key(V1ALPHA2, n, ns) == root + ("namespaces/" + ns + "/" + "policyreports/" + n)
            && KeyForList(V1ALPHA2, ns) == root + ("namespaces/" + ns + "/" + "policyreports/" + "")
            && ClusterKey(V1ALPHA2, n) == root + ("clusterpolicyreports/" + n)
            && ClusterKeyForList(V1ALPHA2) == root + "clusterpolicyreports/"
  {
    TailIsPath(ns, n);
    TailIsPath(ns, "");
    UnderIsPath(V1ALPHA2, NamespacedTail(ns, n));
    UnderIsPath(V1ALPHA2, NamespacedTail(ns, ""));
    UnderIsPath(V1ALPHA2, "clusterpolicyreports/" + n);
    UnderIsPath(V1ALPHA2, "clusterpolicyreports/");
  }
}
