/**
 * The redeploy build step (Rancher2RedeployBuilder): the request URL, the
 * in-memory edit of the fetched workload with its all-or-nothing match
 * test, and the two form checks of its descriptor.
 */
module RedeployBuilder {
  import opened JavaText
  import opened ImageTags
  import opened Workloads
  import opened Rancher2Credentials

  const LegacyProjectSegment := "/p/"
  const ProjectSegment := "/project/"
  const LegacyWorkloadSegment := "/workload/"
  const WorkloadsSegment := "/workloads/"

  /** The URL of the GET and the PUT: the endpoint without its trailing
      slash followed by the workload path; when that whole URL starts with
      `/p/`, the first `/p/` becomes `/project/` and then the first
      `/workload/` becomes `/workloads/`. */
  function RequestUrl(endpoint: string, workload: string): (url: string)
    ensures !StartsWith(StripTrailingSlash(endpoint) + workload, LegacyProjectSegment) ==>
      url == StripTrailingSlash(endpoint) + workload
    ensures StartsWith(StripTrailingSlash(endpoint) + workload, LegacyProjectSegment) ==>
      StartsWith(url, ProjectSegment)
  {
    var url := StripTrailingSlash(endpoint) + workload;
    if StartsWith(url, LegacyProjectSegment) then
      var project := ReplaceFirst(url, LegacyProjectSegment, ProjectSegment);
      ReplaceLegacyPrefix(url);
      ReplaceAfterProjectKeepsPrefix(project[|ProjectSegment|..]);
      ReplaceFirst(project, LegacyWorkloadSegment, WorkloadsSegment)
    else url
  }

  /** The legacy branch of RequestUrl, with the first replacement done. */
  lemma RequestUrlLegacy(endpoint: string, workload: string)
    requires StartsWith(StripTrailingSlash(endpoint) + workload, LegacyProjectSegment)
    ensures RequestUrl(endpoint, workload) ==
      ReplaceFirst(ProjectSegment + (StripTrailingSlash(endpoint) + workload)[|LegacyProjectSegment|..],
                   LegacyWorkloadSegment, WorkloadsSegment)
  {
    ReplaceLegacyPrefix(StripTrailingSlash(endpoint) + workload);
  }

  /** A URL starting with `/p/` has that as its first occurrence. */
  lemma ReplaceLegacyPrefix(url: string)
    requires StartsWith(url, LegacyProjectSegment)
    ensures ReplaceFirst(url, LegacyProjectSegment, ProjectSegment) == ProjectSegment + url[|LegacyProjectSegment|..]
  {
    assert OccursAt(url, LegacyProjectSegment, 0);
  }

  /** Whatever `/workload/` occurrence is replaced, the result still starts
      with `/project/`: no occurrence starts inside `/project`. */
  lemma ReplaceAfterProjectKeepsPrefix(rest: string)
    ensures StartsWith(ReplaceFirst(ProjectSegment + rest, LegacyWorkloadSegment, WorkloadsSegment), ProjectSegment)
  {
    var s := ProjectSegment + rest;
    var r := ReplaceFirst(s, LegacyWorkloadSegment, WorkloadsSegment);
    match IndexOfFrom(s, LegacyWorkloadSegment, 0)
    case None =>
    case Some(k) =>
      if k < 8 {
        NotInsideProjectSegment(s, k);
      } else {
        KeepsPrefixBefore(s, k, WorkloadsSegment, s[k + |LegacyWorkloadSegment|..]);
      }
  }

  /** Replacing from index 8 on with text that starts with `/` leaves a
      leading `/project/` in place. */
  lemma KeepsPrefixBefore(s: string, k: nat, replacement: string, tail: string)
    requires StartsWith(s, ProjectSegment) && 8 <= k <= |s|
    requires replacement != [] && replacement[0] == '/'
    ensures StartsWith(s[..k] + replacement + tail, ProjectSegment)
  {
    var r := s[..k] + replacement + tail;
    forall i | 0 <= i < 9 ensures r[i] == ProjectSegment[i] {
      if i < k {
        assert r[i] == s[i];
      }
    }
  }

  /** The legacy rewrite is never applied when the endpoint is an http(s)
      URL: the `/p/` test looks at the whole URL, not at the workload path. */
  lemma HttpEndpointIsNeverRewritten(endpoint: string, workload: string)
    requires StartsWith(endpoint, HttpScheme) || StartsWith(endpoint, HttpsScheme)
    ensures RequestUrl(endpoint, workload) == StripTrailingSlash(endpoint) + workload
  {
    var url := StripTrailingSlash(endpoint) + workload;
    assert url[0] == 'h';
    assert !StartsWith(url, LegacyProjectSegment);
  }

  /** With an endpoint that is empty once its trailing slash is removed, a
      legacy path `/p/<project>/workload/<rest>` becomes
      `/project/<project>/workloads/<rest>`, provided `/<project>/` holds no
      `/workload/` of its own. */
  lemma LegacyPathRewritten(endpoint: string, project: string, rest: string)
    requires StripTrailingSlash(endpoint) == []
    requires forall k: nat :: !OccursAt("/" + project + "/", LegacyWorkloadSegment, k)
    ensures RequestUrl(endpoint, LegacyProjectSegment + project + LegacyWorkloadSegment + rest) ==
      ProjectSegment + project + WorkloadsSegment + rest
  {
    var tail := project + LegacyWorkloadSegment + rest;
    assert StripTrailingSlash(endpoint) + (LegacyProjectSegment + project + LegacyWorkloadSegment + rest) ==
      LegacyProjectSegment + tail;
    LegacyRequestUrl(endpoint, LegacyProjectSegment + project + LegacyWorkloadSegment + rest, tail);
    ReplaceWorkloadSegment(project, rest);
  }

  /** RequestUrlLegacy for a URL given as `/p/` followed by its tail. */
  lemma LegacyRequestUrl(endpoint: string, workload: string, tail: string)
    requires StripTrailingSlash(endpoint) + workload == LegacyProjectSegment + tail
    ensures RequestUrl(endpoint, workload) == ReplaceFirst(ProjectSegment + tail, LegacyWorkloadSegment, WorkloadsSegment)
  {
    var url := StripTrailingSlash(endpoint) + workload;
    assert url[..3] == LegacyProjectSegment && url[3..] == tail;
    RequestUrlLegacy(endpoint, workload);
  }

  lemma ReplaceWorkloadSegment(project: string, rest: string)
    requires forall k: nat :: !OccursAt("/" + project + "/", LegacyWorkloadSegment, k)
    ensures ReplaceFirst(ProjectSegment + (project + LegacyWorkloadSegment + rest), LegacyWorkloadSegment, WorkloadsSegment) ==
      ProjectSegment + project + WorkloadsSegment + rest
  {
    var s := ProjectSegment + project + LegacyWorkloadSegment + rest;
    assert ProjectSegment + (project + LegacyWorkloadSegment + rest) == s;
    var q := 9 + |project|;
    assert OccursAt(s, LegacyWorkloadSegment, q) by {
      assert s[q..q + 10] == LegacyWorkloadSegment;
    }
    forall j: nat | j < q ensures !OccursAt(s, LegacyWorkloadSegment, j) {
      NoEarlierWorkloadSegment(project, rest, j);
    }
    assert s[..q] == ProjectSegment + project;
    assert s[q + 10..] == rest;
  }

  lemma NoEarlierWorkloadSegment(project: string, rest: string, j: nat)
    requires forall k: nat :: !OccursAt("/" + project + "/", LegacyWorkloadSegment, k)
    requires j < 9 + |project|
    ensures !OccursAt(ProjectSegment + project + LegacyWorkloadSegment + rest, LegacyWorkloadSegment, j)
  {
    var s := ProjectSegment + project + LegacyWorkloadSegment + rest;
    if j < 8 {
      assert s[..9] == ProjectSegment;
      NotInsideProjectSegment(s, j);
    } else if j <= |project| {
      var inner := "/" + project + "/";
      assert inner[j - 8..j + 2] == s[j..j + 10];
      assert !OccursAt(inner, LegacyWorkloadSegment, j - 8);
    } else {
      assert s[9 + |project|] == '/';
      NoOverlapWithSlash(s, j, 9 + |project|);
    }
  }

  /** No `/workload/` starts within the leading `/project`. */
  lemma NotInsideProjectSegment(s: string, j: nat)
    requires StartsWith(s, ProjectSegment) && j < 8
    ensures !OccursAt(s, LegacyWorkloadSegment, j)
  {
    if OccursAt(s, LegacyWorkloadSegment, j) {
      OccursAtChar(s, LegacyWorkloadSegment, j, 1);
    }
  }

  /** `/workload/` has no `/` except at its ends, so an occurrence cannot
      start just before a `/` that lies inside it. */
  lemma NoOverlapWithSlash(s: string, j: nat, q: nat)
    requires q < |s| && s[q] == '/' && j < q < j + 9
    ensures !OccursAt(s, LegacyWorkloadSegment, j)
  {
    if OccursAt(s, LegacyWorkloadSegment, j) {
      OccursAtChar(s, LegacyWorkloadSegment, j, q - j);
    }
  }

  /** doCheckWorkload. */
  function CheckWorkload(value: Option<string>): (k: Kind)
    ensures k != Warning
    ensures IsBlank(value) ==> k == Error
  {
    if IsBlank(value) then Error
    else if !StartsWith(value.value, "/project") && !StartsWith(value.value, LegacyProjectSegment) then Error
    else Ok
  }

  /** An accepted workload path is a non-empty path starting with `/`, so it
      joins an endpoint with exactly the one slash the endpoint lost. */
  lemma AcceptedWorkloadIsAbsolutePath(value: Option<string>)
    ensures CheckWorkload(value) == Ok <==>
      value.Some? && !IsBlank(value) &&
      (StartsWith(value.value, "/project") || StartsWith(value.value, LegacyProjectSegment))
    ensures CheckWorkload(value) == Ok ==> value.value != [] && value.value[0] == '/'
  {
  }

  /** doCheckImages: blank is fine; otherwise the `;`-separated entries, as
      String.split returns them, must all be non-empty. */
  function CheckImages(value: Option<string>): (k: Kind)
    ensures k != Warning
    ensures IsBlank(value) ==> k == Ok
  {
    if IsBlank(value) then Ok
    else
      var images := Split(value.value, ';');
      if exists i :: 0 <= i < |images| && images[i] == [] then Error else Ok
  }

  /** doCheckImages rejects a non-blank list exactly when a `;` at its start
      or right after another `;` is followed later by a character other than
      `;`; trailing separators are accepted because split drops them. */
  lemma CheckImagesError(value: string)
    requires !IsBlank(Some(value))
    ensures CheckImages(Some(value)) == Error <==> SeparatorOpensEmptyField(value, ';')
  {
    if ';' in value {
      assert Split(value, ';') == DropTrailingEmpty(SplitAll(value, ';'));
      DropTrailingKeepsInnerEmpty(SplitAll(value, ';'));
      EmptyFieldIffSeparatorRun(value, ';');
    } else {
      assert Split(value, ';') == [value];
      assert value != [] by { assert !IsWhitespace(value[0]) || |value| > 0; }
    }
  }

  lemma CheckImagesExamples()
    ensures CheckImages(Some("a;")) == Ok
    ensures CheckImages(Some("a;;b")) == Error
    ensures CheckImages(Some(";a")) == Error
  {
    assert !IsWhitespace("a;"[0]);
    CheckImagesError("a;");
    assert !IsWhitespace("a;;b"[0]);
    CheckImagesError("a;;b");
    assert "a;;b"[2] == ';' && "a;;b"[1] == ';' && "a;;b"[3] != ';';
    assert !IsWhitespace(";a"[1]);
    CheckImagesError(";a");
    assert ";a"[0] == ';' && ";a"[1] != ';';
  }

  /** The configuration of the build step; `credential` is the id of the
      stored credential, already resolved by the caller. */
  datatype BuildStep = BuildStep(credential: string, workload: string, images: Option<string>, alwaysPull: bool)

  /** How perform ends: without a credential, with the match test failing
      (no PUT is built), or with the PUT of the edited workload to `url`. */
  datatype Outcome =
    | MissingCredential(id: string)
    | NotMatched(workloadImages: set<string>, requested: set<string>)
    | Put(url: string, authorization: string)

  /** perform, from the credential lookup to the PUT request.  `credential`
      is what the credential provider returned for the step's id, `fetched`
      is the parsed body of the successful GET, and `timestamp` is the
      formatted current time. */
  method Perform(step: BuildStep, credential: Option<Credential>, timestamp: string, fetched: Workload)
    returns (outcome: Outcome)
    modifies fetched, fetched.containers
    ensures credential.None? ==> outcome == MissingCredential(step.credential)
    ensures credential.None? ==> unchanged(fetched) && unchanged(fetched.containers)
    ensures credential.Some? ==>
      var tags := ImageTagsFor(step.images);
      var names := NamesOf(old(fetched.containers[..]));
      && outcome == (if tags.Keys <= names
                     then Put(RequestUrl(credential.value.endpoint, step.workload),
                              Authorization(credential.value.bearerToken))
                     else NotMatched(names, tags.Keys))
      && fetched.containers == old(fetched.containers)
      && fetched.containers[..] == PatchAll(old(fetched.containers[..]), tags, step.alwaysPull)
      && fetched.members == old(fetched.members) - {ActionsKey, LinksKey}
      && fetched.annotations == old(fetched.annotations)[TimestampAnnotation := timestamp]
  {
    if credential.None? {
      return MissingCredential(step.credential);
    }
    var imageTags := BuildImageTags(step.images);
    var endpoint := credential.value.endpoint;
    if EndsWith(endpoint, "/") {
      endpoint := endpoint[..|endpoint| - 1];
    }
    var url := endpoint + step.workload;
    if StartsWith(url, LegacyProjectSegment) {
      url := ReplaceFirst(ReplaceFirst(url, LegacyProjectSegment, ProjectSegment), LegacyWorkloadSegment, WorkloadsSegment);
    }
    assert url == RequestUrl(credential.value.endpoint, step.workload);
    // The GET to `url` happens here; `fetched` is its response body.
    fetched.Prepare(timestamp);
    var workloadImages, updatedImages := fetched.PatchContainers(imageTags, step.alwaysPull);
    AllMatchedIffCountsAgree(workloadImages, imageTags.Keys);
    if |updatedImages| != |imageTags| {
      return NotMatched(workloadImages, imageTags.Keys);
    }
    outcome := Put(url, Authorization(credential.value.bearerToken));
  }

  /** Running the step a second time with the same images on the workload it
      produced matches the same names and leaves the containers as they are. */
  lemma RedeployIdempotent(images: Option<string>, containers: seq<Container>, alwaysPull: bool)
    ensures var tags := ImageTagsFor(images);
      && PatchAll(PatchAll(containers, tags, alwaysPull), tags, alwaysPull) == PatchAll(containers, tags, alwaysPull)
      && (tags.Keys <= NamesOf(PatchAll(containers, tags, alwaysPull)) <==> tags.Keys <= NamesOf(containers))
  {
    var tags := ImageTagsFor(images);
    PatchAllIdempotent(containers, tags, alwaysPull);
    PatchAllKeepsNames(containers, tags, alwaysPull);
  }

  lemma SingleImageTags()
    ensures ImageTagsFor(Some("foo:2")) == map["foo" := "foo:2"]
  {
    assert !IsWhitespace("foo:2"[0]);
    assert Split("foo:2", ';') == ["foo:2"];
    assert ParseImageName("foo:2") == "foo" by { assert "foo:2"[3] == ':'; }
    assert ImageTagsOf(["foo:2"]) == ImageTagsOf([])["foo" := "foo:2"];
  }

  /** The example of a two-container workload and the images `foo:2`
      (see SingleImageTags): `foo` is replaced and set to always pull, `bar`
      is untouched, and the one requested name matched. */
  lemma PatchExample()
    ensures var containers := [Container("foo:1", map[]), Container("bar:2", map[])];
      var tags := map["foo" := "foo:2"];
      && PatchAll(containers, tags, true) ==
           [Container("foo:2", map[PullPolicyKey := AlwaysPull]), Container("bar:2", map[])]
      && tags.Keys <= NamesOf(containers)
  {
    var tags := map["foo" := "foo:2"];
    ExampleNames();
    var containers := [Container("foo:1", map[]), Container("bar:2", map[])];
    assert Patch(containers[0], tags, true) == Container("foo:2", map[PullPolicyKey := AlwaysPull]);
    assert Patch(containers[1], tags, true) == containers[1];
    assert ImageName(containers[0]) in NamesOf(containers);
  }

  /** The same workload with the images `baz:1`: its names are foo and bar,
      nothing matches, so the step ends with NotMatched({foo, bar}, {baz})
      and builds no PUT. */
  lemma MismatchExample()
    ensures var containers := [Container("foo:1", map[]), Container("bar:2", map[])];
      && NamesOf(containers) == {"foo", "bar"}
      && !({"baz"} <= NamesOf(containers))
  {
    var containers := [Container("foo:1", map[]), Container("bar:2", map[])];
    ExampleNames();
    forall name | name in NamesOf(containers) ensures name == "foo" || name == "bar" {
      var i :| 0 <= i < |containers| && ImageName(containers[i]) == name;
    }
    assert ImageName(containers[0]) in NamesOf(containers);
    assert ImageName(containers[1]) in NamesOf(containers);
  }

  /** The image names of the references used by the examples. */
  lemma ExampleNames()
    ensures ParseImageName("foo:1") == "foo" && ParseImageName("bar:2") == "bar"
  {
    assert "foo:1"[3] == ':' && "bar:2"[3] == ':';
  }
}
