/** Fully qualified CRD names: a resource, a dot, and one of the supported groups. */
module CrdNames {
  import opened Outcomes
  import opened Text

  const GROUP_VERSIONS: map<string, string> := map[
    "ocs.openshift.io" := "v1",
    "ceph.rook.io" := "v1",
    "csi.ceph.io" := "v1alpha1",
    "odf.openshift.io" := "v1alpha1",
    "noobaa.io" := "v1alpha1",
    "csiaddons.openshift.io" := "v1alpha1"]

  datatype Qualified = Qualified(resource: string, group: string, version: string)

  datatype ParseError = InvalidFormat(text: string) | UnsupportedGroup(group: string)

  /** Split in two at the first dot, then look the group up. */
  function Parse(text: string): Result<Qualified, ParseError> {
    var i := IndexOf(text, '.');
    if i == |text| then Err(InvalidFormat(text))
    else
      var resource, group := text[..i], text[i + 1..];
      if group in GROUP_VERSIONS then Ok(Qualified(resource, group, GROUP_VERSIONS[group]))
      else Err(UnsupportedGroup(group))
  }

  function Render(resource: string, group: string): string {
    resource + "." + group
  }

  predicate IsName(resource: string, group: string) {
    '.' !in resource && group in GROUP_VERSIONS
  }

  /** Every pair of a dot-free resource and a supported group is parsed back, dots in the group included. */
  lemma ParseOfRender(resource: string, group: string)
    requires IsName(resource, group)
    ensures Parse(Render(resource, group)) == Ok(Qualified(resource, group, GROUP_VERSIONS[group]))
  {
    IndexOfConcat(resource, '.', group);
  }

  /** Whatever is accepted is such a pair and is written exactly as its rendering. */
  lemma RenderOfParse(text: string)
    requires Parse(text).Ok?
    ensures var q := Parse(text).value;
            IsName(q.resource, q.group) && Render(q.resource, q.group) == text && q.version == GROUP_VERSIONS[q.group]
  {
    var i := IndexOf(text, '.');
    assert text == text[..i] + "." + text[i + 1..];
  }

  /** Acceptance is exactly being a rendering, and no two pairs share one. */
  lemma NamesAreUnambiguous(text: string)
    ensures Parse(text).Ok? <==> exists resource, group :: IsName(resource, group) && text == Render(resource, group)
    ensures forall r, g, r', g' | IsName(r, g) && IsName(r', g') && Render(r, g) == Render(r', g') :: r == r' && g == g'
  {
    if Parse(text).Ok? {
      RenderOfParse(text);
    }
    forall resource, group | IsName(resource, group) {
      ParseOfRender(resource, group);
    }
  }

  /** What parsing answers, for any text: it depends on what stands before and after the first dot. */
  lemma ParseExactly(resource: string, group: string)
    requires '.' !in resource
    ensures Parse(resource) == Err(InvalidFormat(resource))
    ensures Parse(resource + "." + group) ==
              if group in {"ocs.openshift.io", "ceph.rook.io"} then Ok(Qualified(resource, group, "v1"))
              else if group in {"csi.ceph.io", "odf.openshift.io", "noobaa.io", "csiaddons.openshift.io"}
              then Ok(Qualified(resource, group, "v1alpha1"))
              else Err(UnsupportedGroup(group))
  {
    IndexOfAbsent(resource, '.');
    IndexOfConcat(resource, '.', group);
    GroupVersions(group);
  }

  lemma GroupVersions(group: string)
    ensures group in GROUP_VERSIONS <==>
              group in {"ocs.openshift.io", "ceph.rook.io", "csi.ceph.io", "odf.openshift.io", "noobaa.io",
                        "csiaddons.openshift.io"}
    ensures group in GROUP_VERSIONS ==>
              GROUP_VERSIONS[group] == if group in {"ocs.openshift.io", "ceph.rook.io"} then "v1" else "v1alpha1"
  {
  }
}
