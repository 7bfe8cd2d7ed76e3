# Rancher2 redeploy plugin — verified model

This project models the Jenkins build step "Redeploy Rancher2.x Workload" and
its credentials. It covers the deterministic core around the HTTP calls.

- Image list. The step's `images` parameter is a `;`-separated list of
  `name:tag` references. It becomes a map from image name (the text before
  the last colon) to the full reference. A later entry with the same name
  overwrites an earlier one.
- Request URL. The credential's endpoint loses one trailing `/` and is
  followed by the workload path. When that whole URL starts with `/p/`, the
  first `/p/` becomes `/project/` and then the first `/workload/` becomes
  `/workloads/`.
- In-memory edit of the fetched workload. `actions` and `links` are removed
  and `annotations["cattle.io/timestamp"]` is set. Every container whose
  image name is requested gets the new reference and, with `alwaysPull`,
  `imagePullPolicy = "Always"`.
- The match test. The PUT is built only when every requested image name
  belongs to some container.
- Form checks. These are the build-step descriptor's workload and images
  checks, and the credential descriptor's endpoint and bearer-token checks.
  Also modelled is what the connection test does before any network
  traffic: it orders the checks and composes the probe URL and the
  `Authorization` header.

Modules:

- `JavaText`: the `java.lang.String` and commons-lang `StringUtils`
  behaviour the code relies on. That is `lastIndexOf`, `replaceFirst` with a
  literal pattern, `split` with a one-character separator (trailing empty
  fields dropped) and `isBlank`. A Java `null` is `None`.
- `ImageTags`: `parseImageName` and the image map. There is a function
  specification and a `method` with the loop that fills the map with `put`.
- `Workloads`: a container record and the `Workload` class. The class holds
  the document's top-level members, its annotations and an `array` of
  containers that the patch loop rewrites in place.
- `Rancher2Credentials`: `doCheckEndpoint`, `doCheckBearerToken` and the
  pre-network part of `doTestConnection`.
- `RedeployBuilder`: the request URL, `perform` from the credential lookup to
  the PUT request, `doCheckWorkload` and `doCheckImages`.

The `/p/` test looks at the complete URL, endpoint included. It is modelled
that way. `HttpEndpointIsNeverRewritten` shows that the rewrite cannot happen
for an `http://` or `https://` endpoint. `LegacyPathRewritten` shows what the
rewrite does when the stripped endpoint is empty.

## Model

All source paths are under `src/main/java/io/jenkins/plugins/rancher2/`.

| member | source | states |
|---|---|---|
| JavaText.LastIndexOf | src/main/java/io/jenkins/plugins/rancher2/Rancher2RedeployBuilder.java:189-192 | `lastIndexOf(':')`. The result is absent exactly when the character does not occur. Otherwise it is a position holding the character, with no occurrence after it. |
| JavaText.IsBlank | src/main/java/io/jenkins/plugins/rancher2/Rancher2RedeployBuilder.java:213 | `StringUtils.isBlank`: null and the empty string are blank; a string whose first character is not whitespace is not. The body is the definition: every character is Java whitespace. |
| JavaText.ReplaceFirst | src/main/java/io/jenkins/plugins/rancher2/Rancher2RedeployBuilder.java:117 | `replaceFirst` with a literal pattern. Without an occurrence the string is unchanged. Otherwise only the first occurrence is replaced. |
| JavaText.Split | src/main/java/io/jenkins/plugins/rancher2/Rancher2RedeployBuilder.java:101 | `split(";")`. A string without the separator is its own only field, even when empty. No field contains the separator. |
| JavaText.DropTrailingEmpty | src/main/java/io/jenkins/plugins/rancher2/Rancher2RedeployBuilder.java:216 | Removing only trailing empty fields keeps a prefix of the fields. Everything removed is empty. The last field kept is non-empty. |
| JavaText.JoinSplitAll | src/main/java/io/jenkins/plugins/rancher2/Rancher2RedeployBuilder.java:216 | Joining the separator-delimited fields back with the separator gives the original string. |
| JavaText.SplitAllJoin | src/main/java/io/jenkins/plugins/rancher2/Rancher2RedeployBuilder.java:216 | Splitting separator-free fields joined with the separator gives those fields back. |
| JavaText.EmptyFieldIffSeparatorRun | src/main/java/io/jenkins/plugins/rancher2/Rancher2RedeployBuilder.java:216-221 | An empty field comes before a non-empty one exactly when a separator at the start or after another separator is followed later by text. |
| ImageTags.ParseImageName | src/main/java/io/jenkins/plugins/rancher2/Rancher2RedeployBuilder.java:188-194 | `parseImageName`: the name is never longer than the reference, and is the whole reference exactly when it has no colon. ParseImageNameSpec gives the prefix in the colon case. |
| ImageTags.ParseImageNameSpec | src/main/java/io/jenkins/plugins/rancher2/Rancher2RedeployBuilder.java:188-194 | A reference without a colon is its own name. Otherwise the name is the prefix before a colon that has no colon after it. |
| ImageTags.ParseWithTag | src/main/java/io/jenkins/plugins/rancher2/Rancher2RedeployBuilder.java:188-194 | `name:tag` parses back to `name` exactly when the tag has no colon. |
| ImageTags.ImageTagsOf | src/main/java/io/jenkins/plugins/rancher2/Rancher2RedeployBuilder.java:102-105 | The `put` fold over the entries: every value in the map is one of the entries. ImageTagsKeys and ImageTagsLastWins give its keys and which entry is kept. |
| ImageTags.ImageTagsFor | src/main/java/io/jenkins/plugins/rancher2/Rancher2RedeployBuilder.java:98-106 | A null or blank `images` gives the empty map. Every value's image name is its key. |
| ImageTags.ImageTagsValuesNamed | src/main/java/io/jenkins/plugins/rancher2/Rancher2RedeployBuilder.java:102-105 | Every value is one of the entries, and its image name is its key. |
| ImageTags.ImageTagsKeys | src/main/java/io/jenkins/plugins/rancher2/Rancher2RedeployBuilder.java:102-105 | The keys are exactly the image names of the entries. |
| ImageTags.ImageTagsLastWins | src/main/java/io/jenkins/plugins/rancher2/Rancher2RedeployBuilder.java:102-105 | For a name, the value kept is the last entry with that name (`put` overwrites). |
| ImageTags.BuildImageTags | src/main/java/io/jenkins/plugins/rancher2/Rancher2RedeployBuilder.java:98-106 | The loop of `put`s produces exactly the image map. |
| Workloads.Patch | src/main/java/io/jenkins/plugins/rancher2/Rancher2RedeployBuilder.java:147-156 | An unrequested container is unchanged. A requested one gets its name's reference and, with `alwaysPull`, `imagePullPolicy = "Always"`. Every other attribute is kept. |
| Workloads.PatchAll | src/main/java/io/jenkins/plugins/rancher2/Rancher2RedeployBuilder.java:144-160 | The container count is preserved. |
| Workloads.PatchAllKeepsNames | src/main/java/io/jenkins/plugins/rancher2/Rancher2RedeployBuilder.java:148-152 | When each value's image name is its key, patching keeps every container's image name, position by position. |
| Workloads.PatchAllIdempotent | src/main/java/io/jenkins/plugins/rancher2/Rancher2RedeployBuilder.java:103-104 | Patching a second time with the same map changes nothing and matches the same names. |
| Workloads.AllMatchedIffCountsAgree | src/main/java/io/jenkins/plugins/rancher2/Rancher2RedeployBuilder.java:162-166 | `updatedImages` is `workloadImages ∩ keys`, so the size test passes exactly when every key is a workload image name. |
| Workloads.Workload.Prepare | src/main/java/io/jenkins/plugins/rancher2/Rancher2RedeployBuilder.java:137-142 | Only `actions` and `links` are removed from the members. Only the timestamp annotation is set. The containers are untouched. |
| Workloads.Workload.PatchContainers | src/main/java/io/jenkins/plugins/rancher2/Rancher2RedeployBuilder.java:143-160 | The containers end as the patched originals, in place and in order. `workloadImages` holds the names of the original containers. `updatedImages` is its intersection with the keys. |
| Rancher2Credentials.CheckEndpoint | src/main/java/io/jenkins/plugins/rancher2/Rancher2CredentialsImpl.java:68-87 | `doCheckEndpoint`: a null or empty endpoint is an error, and only an endpoint that parses as a URL is ok. CheckEndpointError and CheckEndpointOk give both directions of each kind. |
| Rancher2Credentials.CheckEndpointError | src/main/java/io/jenkins/plugins/rancher2/Rancher2CredentialsImpl.java:68-87 | The endpoint check errs exactly in three cases: the value is null or empty; it has a trailing slash; or it is an http(s) endpoint ending in `/v3` that is not a URL. |
| Rancher2Credentials.CheckEndpointOk | src/main/java/io/jenkins/plugins/rancher2/Rancher2CredentialsImpl.java:72-86 | The check is ok exactly for an http(s) URL ending in `/v3`. A trailing slash is an error before any warning. |
| Rancher2Credentials.AcceptedEndpointHasNoTrailingSlash | src/main/java/io/jenkins/plugins/rancher2/Rancher2CredentialsImpl.java:69-74 | An endpoint that is not rejected is non-empty and has no trailing slash. |
| Rancher2Credentials.CheckBearerToken | src/main/java/io/jenkins/plugins/rancher2/Rancher2CredentialsImpl.java:89-97 | The token check never warns. |
| Rancher2Credentials.CheckBearerTokenOk | src/main/java/io/jenkins/plugins/rancher2/Rancher2CredentialsImpl.java:89-97 | The token is accepted exactly when it is present, non-empty and does not start with `Bearer`. An accepted token never yields a `Bearer Bearer` header. |
| Rancher2Credentials.Authorization | src/main/java/io/jenkins/plugins/rancher2/Rancher2CredentialsImpl.java:116 | The `Authorization` header value, also sent at Rancher2RedeployBuilder.java:120 and :167: it starts with `Bearer ` and the token follows it unchanged. |
| Rancher2Credentials.StripTrailingSlash | src/main/java/io/jenkins/plugins/rancher2/Rancher2RedeployBuilder.java:111-113 | One trailing slash is removed when present. Otherwise the endpoint is kept. |
| Rancher2Credentials.TestUrl | src/main/java/io/jenkins/plugins/rancher2/Rancher2CredentialsImpl.java:115 | The probe URL is the endpoint without its trailing slash, followed by `/projects`. It always ends in `/projects`. |
| Rancher2Credentials.TestConnection | src/main/java/io/jenkins/plugins/rancher2/Rancher2CredentialsImpl.java:105-116 | The endpoint check's error comes first; the token check's error comes only when the endpoint passes. Otherwise the probe goes to the endpoint plus `/projects`, with the `Bearer` header. |
| Rancher2Credentials.WarningStillProbes | src/main/java/io/jenkins/plugins/rancher2/Rancher2CredentialsImpl.java:105-112 | An endpoint warning does not stop the connection test. The token alone decides. |
| RedeployBuilder.RequestUrl | src/main/java/io/jenkins/plugins/rancher2/Rancher2RedeployBuilder.java:110-118 | Without a leading `/p/` the URL is the stripped endpoint plus the workload. With one, the result starts with `/project/`. |
| RedeployBuilder.RequestUrlLegacy | src/main/java/io/jenkins/plugins/rancher2/Rancher2RedeployBuilder.java:116-118 | When the stripped endpoint plus the workload starts with `/p/`, the URL is that text with its leading `/p/` replaced by `/project/`, then with the first `/workload/` replaced by `/workloads/`. |
| RedeployBuilder.HttpEndpointIsNeverRewritten | src/main/java/io/jenkins/plugins/rancher2/Rancher2RedeployBuilder.java:116-118 | With an `http://` or `https://` endpoint, the legacy rewrite never applies. |
| RedeployBuilder.LegacyPathRewritten | src/main/java/io/jenkins/plugins/rancher2/Rancher2RedeployBuilder.java:115-118 | With an endpoint that is empty once stripped, `/p/<project>/workload/<rest>` becomes `/project/<project>/workloads/<rest>`. This holds when the project segment holds no `/workload/`. |
| RedeployBuilder.ReplaceAfterProjectKeepsPrefix | src/main/java/io/jenkins/plugins/rancher2/Rancher2RedeployBuilder.java:117 | The second replacement keeps the `/project/` the first one produced. |
| RedeployBuilder.CheckWorkload | src/main/java/io/jenkins/plugins/rancher2/Rancher2RedeployBuilder.java:200-209 | `doCheckWorkload` never warns, and a blank value is an error. AcceptedWorkloadIsAbsolutePath says exactly which values are ok. |
| RedeployBuilder.AcceptedWorkloadIsAbsolutePath | src/main/java/io/jenkins/plugins/rancher2/Rancher2RedeployBuilder.java:200-209 | The workload check is ok exactly for a non-blank path starting with `/project` or `/p/`. Such a path starts with `/`. |
| RedeployBuilder.CheckImages | src/main/java/io/jenkins/plugins/rancher2/Rancher2RedeployBuilder.java:211-223 | `doCheckImages` never warns, and a blank value is ok. CheckImagesError says exactly which non-blank values are errors. |
| RedeployBuilder.CheckImagesError | src/main/java/io/jenkins/plugins/rancher2/Rancher2RedeployBuilder.java:211-223 | A non-blank list is rejected exactly when a `;` at the start, or right after another `;`, has text after it. Trailing separators are accepted. |
| RedeployBuilder.CheckImagesExamples | src/main/java/io/jenkins/plugins/rancher2/Rancher2RedeployBuilder.java:211-223 | `a;` is accepted. `a;;b` and `;a` are rejected. |
| RedeployBuilder.Perform | src/main/java/io/jenkins/plugins/rancher2/Rancher2RedeployBuilder.java:84-180 | A missing credential aborts with nothing changed. Otherwise the PUT goes to the request URL with the bearer header exactly when every requested name is a container's name, and the step aborts otherwise. The document ends stripped, stamped and patched. |
| RedeployBuilder.RedeployIdempotent | src/main/java/io/jenkins/plugins/rancher2/Rancher2RedeployBuilder.java:98-160 | Re-running the step with the same images on the patched containers leaves them as they are. The match test gives the same answer. |
| RedeployBuilder.SingleImageTags | src/main/java/io/jenkins/plugins/rancher2/Rancher2RedeployBuilder.java:98-106 | `foo:2` gives the map `foo ↦ foo:2`. |
| RedeployBuilder.PatchExample | src/main/java/io/jenkins/plugins/rancher2/Rancher2RedeployBuilder.java:143-160 | Two containers, `foo:1` and `bar:2`, with that map: `foo` is replaced and set to always pull, and `bar` is untouched. |
| RedeployBuilder.MismatchExample | src/main/java/io/jenkins/plugins/rancher2/Rancher2RedeployBuilder.java:162-166 | The names of those containers are exactly `foo` and `bar`, so a request for `baz` is not matched. |

## Left out

- The HTTP GET and PUT, `ClientBuilder` and TLS trust, status-code handling and body reading. `Perform` takes the parsed body of a successful GET as its `fetched` argument. It ends with the PUT it would send (URL and header), not with the transfer. The PUT error path, which reports the GET response, is not modelled.
- The bodies of `doTestConnection`'s request and response handling after the URL and header are built (200/401/other, exceptions). `Jenkins.checkPermission` is also not modelled.
- The credential lookup (`CredentialsProvider.findCredentialById`) is not modelled. Its result is the `credential` argument of `Perform`.
- `doFillCredentialItems`, `doCheckCredential` and the permission checks are not modelled: they are platform calls and access control.
- Jackson parsing and serialisation are not modelled. The workload is a map of top-level members, a map of annotations and an array of containers. String members such as `imagePullPolicy` hold their decoded string; other values are carried along untouched as opaque strings. An `image` node is always present. A missing `annotations` or `containers` node, which would make the code throw, is not modelled.
- `envVars.expand` is the identity: credential id, workload and images are taken as already expanded. The blank test on `images` is made on the unexpanded text in the source, and the same value here.
- The wall clock and `SimpleDateFormat` are not modelled: the timestamp is a parameter.
- `new URL(value)` is the function parameter `parsesAsUrl`.
- Log lines, `Messages` texts and `FormValidation` messages are not modelled. A form check returns only its kind: ok, warning or error.
- A Dafny `char` is a Unicode scalar value, so a supplementary character is one `char` here and two UTF-16 units in Java. `isBlank`, `lastIndexOf`, `replaceFirst` and `split` with the ASCII arguments used give the same strings either way. `IsWhitespace` follows the tables of Java 9 and later, where U+180E is not whitespace; Java 8 counts it as whitespace.
- `Rancher2Credentials.java` (an interface without logic) is not part of this model. Neither is `Rancher2RedeployBuilderTest.java`, whose tests are all commented out.
