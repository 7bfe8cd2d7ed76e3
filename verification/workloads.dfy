/**
 * The Rancher2 workload document as the redeploy step edits it in memory:
 * the server-managed members are removed, the redeploy timestamp is stamped
 * into the annotations, and the images of the matching containers are
 * rewritten in place (Rancher2RedeployBuilder.perform, between the GET and
 * the PUT).
 */
module Workloads {
  import opened JavaText
  import opened ImageTags

  const ActionsKey := "actions"
  const LinksKey := "links"
  const TimestampAnnotation := "cattle.io/timestamp"
  const PullPolicyKey := "imagePullPolicy"
  const AlwaysPull := "Always"

  /** One entry of `containers`: its `image` and every other member by
      name.  A string member such as `imagePullPolicy` holds the decoded
      string; any other value is carried along as it was and never
      inspected. */
  datatype Container = Container(image: string, attributes: map<string, string>)

  function ImageName(c: Container): string {
    ParseImageName(c.image)
  }

  /** The image names of the containers. */
  function NamesOf(containers: seq<Container>): set<string> {
    set i | 0 <= i < |containers| :: ImageName(containers[i])
  }

  /** One step of the container loop: a container whose image name is a key
      gets that key's reference and, when asked, the always-pull policy;
      any other container is left as it was. */
  function Patch(c: Container, tags: map<string, string>, alwaysPull: bool): (p: Container)
    ensures ImageName(c) !in tags ==> p == c
    ensures ImageName(c) in tags ==> p.image == tags[ImageName(c)]
    ensures ImageName(c) in tags && alwaysPull ==>
      p.attributes.Keys == c.attributes.Keys + {PullPolicyKey} && p.attributes[PullPolicyKey] == AlwaysPull
    ensures forall key :: key in c.attributes && key != PullPolicyKey ==>
      key in p.attributes && p.attributes[key] == c.attributes[key]
    ensures !alwaysPull ==> p.attributes == c.attributes
  {
    var name := ImageName(c);
    if name !in tags then c
    else if alwaysPull then Container(tags[name], c.attributes[PullPolicyKey := AlwaysPull])
    else c.(image := tags[name])
  }

  /** The whole container list after the loop. */
  function PatchAll(containers: seq<Container>, tags: map<string, string>, alwaysPull: bool): (r: seq<Container>)
    ensures |r| == |containers|
  {
    seq(|containers|, i requires 0 <= i < |containers| => Patch(containers[i], tags, alwaysPull))
  }

  /** When every value carries its key's image name, patching keeps each
      container's image name. */
  lemma PatchKeepsName(c: Container, tags: map<string, string>, alwaysPull: bool)
    requires ValuesNamedByKeys(tags)
    ensures ImageName(Patch(c, tags, alwaysPull)) == ImageName(c)
  {
  }

  lemma PatchAllKeepsNames(containers: seq<Container>, tags: map<string, string>, alwaysPull: bool)
    requires ValuesNamedByKeys(tags)
    ensures forall i :: 0 <= i < |containers| ==>
      ImageName(PatchAll(containers, tags, alwaysPull)[i]) == ImageName(containers[i])
    ensures NamesOf(PatchAll(containers, tags, alwaysPull)) == NamesOf(containers)
  {
    var patched := PatchAll(containers, tags, alwaysPull);
    forall i | 0 <= i < |containers|
      ensures ImageName(patched[i]) == ImageName(containers[i])
    {
      PatchKeepsName(containers[i], tags, alwaysPull);
    }
    forall name | name in NamesOf(containers) ensures name in NamesOf(patched) {
      var i :| 0 <= i < |containers| && ImageName(containers[i]) == name;
      assert ImageName(patched[i]) == name;
    }
  }

  /** Patching an already patched container changes nothing more. */
  lemma PatchIdempotent(c: Container, tags: map<string, string>, alwaysPull: bool)
    requires ValuesNamedByKeys(tags)
    ensures Patch(Patch(c, tags, alwaysPull), tags, alwaysPull) == Patch(c, tags, alwaysPull)
  {
    PatchKeepsName(c, tags, alwaysPull);
    var p := Patch(c, tags, alwaysPull);
    if ImageName(c) in tags && alwaysPull {
      assert p.attributes[PullPolicyKey := AlwaysPull] == p.attributes;
    }
  }

  /** Re-running the redeploy with the same images on the patched workload
      matches the same names and yields the same containers. */
  lemma PatchAllIdempotent(containers: seq<Container>, tags: map<string, string>, alwaysPull: bool)
    requires ValuesNamedByKeys(tags)
    ensures PatchAll(PatchAll(containers, tags, alwaysPull), tags, alwaysPull) == PatchAll(containers, tags, alwaysPull)
    ensures NamesOf(PatchAll(containers, tags, alwaysPull)) * tags.Keys == NamesOf(containers) * tags.Keys
  {
    var once := PatchAll(containers, tags, alwaysPull);
    forall i | 0 <= i < |containers|
      ensures PatchAll(once, tags, alwaysPull)[i] == once[i]
    {
      PatchIdempotent(containers[i], tags, alwaysPull);
    }
    PatchAllKeepsNames(containers, tags, alwaysPull);
  }

  /** The size test after the loop: as many names were updated as were
      requested exactly when every requested name is some container's. */
  lemma {:induction false} AllMatchedIffCountsAgree(workloadImages: set<string>, requested: set<string>)
    ensures |workloadImages * requested| == |requested| <==> requested <= workloadImages
  {
    if !(requested <= workloadImages) {
      var missing :| missing in requested && missing !in workloadImages;
      assert workloadImages * requested <= requested - {missing};
      SubsetCardinality(workloadImages * requested, requested - {missing});
    } else {
      assert workloadImages * requested == requested;
    }
  }

  lemma {:induction false} SubsetCardinality<T>(small: set<T>, large: set<T>)
    requires small <= large
    ensures |small| <= |large|
  {
    if small != {} {
      var x :| x in small;
      SubsetCardinality(small - {x}, large - {x});
    }
  }

  lemma NamesOfExtend(containers: seq<Container>, i: nat)
    requires i < |containers|
    ensures NamesOf(containers[..i + 1]) == NamesOf(containers[..i]) + {ImageName(containers[i])}
  {
    assert containers[..i + 1] == containers[..i] + [containers[i]];
  }

  /** Recording the next container's name keeps both sets of the loop in
      step with the containers visited so far. */
  lemma RecordName(containers: seq<Container>, i: nat, tags: map<string, string>,
                   workloadImages: set<string>, updatedImages: set<string>)
    requires i < |containers|
    requires workloadImages == NamesOf(containers[..i])
    requires updatedImages == workloadImages * tags.Keys
    ensures workloadImages + {ImageName(containers[i])} == NamesOf(containers[..i + 1])
    ensures (workloadImages + {ImageName(containers[i])}) * tags.Keys ==
      updatedImages + (if ImageName(containers[i]) in tags then {ImageName(containers[i])} else {})
  {
    NamesOfExtend(containers, i);
  }

  /** The workload document returned by the GET and sent back by the PUT. */
  class Workload {
    /** Top-level members other than `annotations` and `containers`; their
        values are carried along as they were and never inspected. */
    var members: map<string, string>
    var annotations: map<string, string>
    var containers: array<Container>

    constructor (members: map<string, string>, annotations: map<string, string>, containers: seq<Container>)
      ensures this.members == members && this.annotations == annotations
      ensures fresh(this.containers) && this.containers[..] == containers
    {
      this.members := members;
      this.annotations := annotations;
      this.containers := new Container[|containers|](i requires 0 <= i < |containers| => containers[i]);
    }

    /** Drop `actions` and `links` and stamp the redeploy timestamp. */
    method Prepare(timestamp: string)
      modifies this
      ensures members == old(members) - {ActionsKey, LinksKey}
      ensures ActionsKey !in members && LinksKey !in members
      ensures annotations == old(annotations)[TimestampAnnotation := timestamp]
      ensures containers == old(containers)
    {
      members := members - {ActionsKey};
      members := members - {LinksKey};
      annotations := annotations[TimestampAnnotation := timestamp];
    }

    /** The container loop: every container is visited in order, its image
        name recorded, and the matching ones are rewritten in place. */
    method PatchContainers(tags: map<string, string>, alwaysPull: bool)
      returns (workloadImages: set<string>, updatedImages: set<string>)
      modifies containers
      ensures containers[..] == PatchAll(old(containers[..]), tags, alwaysPull)
      ensures workloadImages == NamesOf(old(containers[..]))
      ensures updatedImages == workloadImages * tags.Keys
    {
      ghost var original := containers[..];
      ghost var patched := PatchAll(original, tags, alwaysPull);
      workloadImages, updatedImages := {}, {};
      var i := 0;
      while i < containers.Length
        invariant 0 <= i <= containers.Length
        invariant forall k :: 0 <= k < i ==> containers[k] == patched[k]
        invariant forall k :: i <= k < containers.Length ==> containers[k] == original[k]
        invariant workloadImages == NamesOf(original[..i])
        invariant updatedImages == workloadImages * tags.Keys
      {
        var container := containers[i];
        var name := ParseImageName(container.image);
        RecordName(original, i, tags, workloadImages, updatedImages);
        workloadImages := workloadImages + {name};
        if name in tags {
          var newTag := tags[name];
          container := container.(image := newTag);
          if alwaysPull {
            container := container.(attributes := container.attributes[PullPolicyKey := AlwaysPull]);
          }
          assert container == patched[i];
          containers[i] := container;
          updatedImages := updatedImages + {name};
        }
        i := i + 1;
      }
      assert original[..i] == original;
      assert containers[..] == patched;
    }
  }
}
