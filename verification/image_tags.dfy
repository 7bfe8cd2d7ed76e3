/**
 * Image references (`name[:tag]`) and the map from image name to the full
 * replacement reference that the redeploy step builds from its `images`
 * parameter (Rancher2RedeployBuilder.parseImageName and the first loop of
 * Rancher2RedeployBuilder.perform).
 */
module ImageTags {
  import opened JavaText

  /** parseImageName: a reference is its own name exactly when it has no
      colon; ParseImageNameSpec says which prefix it is otherwise. */
  function ParseImageName(imageTag: string): (name: string)
    ensures |name| <= |imageTag|
    ensures name == imageTag <==> ':' !in imageTag
  {
    match LastIndexOf(imageTag, ':')
    case None => imageTag
    case Some(index) => imageTag[..index]
  }

  /** The image name is the reference up to its last colon, or all of it
      when it has no colon; what follows that colon is the tag. */
  lemma ParseImageNameSpec(imageTag: string)
    ensures ':' !in imageTag ==> ParseImageName(imageTag) == imageTag
    ensures ':' in imageTag ==>
      var name := ParseImageName(imageTag);
      |name| < |imageTag| && name == imageTag[..|name|] && imageTag[|name|] == ':' &&
      ':' !in imageTag[|name| + 1..]
  {
  }

  /** A reference built from a name and a tag. */
  function WithTag(name: string, tag: string): string {
    name + [':'] + tag
  }

  /** The name of `name:tag` is `name` exactly when the tag has no colon. */
  lemma ParseWithTag(name: string, tag: string)
    ensures ParseImageName(WithTag(name, tag)) == name <==> ':' !in tag
  {
    var s := WithTag(name, tag);
    ParseImageNameSpec(s);
    assert s[|name|] == ':';
    if ':' in tag {
      assert s[|name| + 1..] == tag;
    }
  }

  /** The image names of a list of entries. */
  function NamesOfEntries(entries: seq<string>): set<string> {
    set i | 0 <= i < |entries| :: ParseImageName(entries[i])
  }

  /** Each entry, in order, is put under its image name; a later entry with
      the same name overwrites an earlier one. */
  function ImageTagsOf(entries: seq<string>): (tags: map<string, string>)
    ensures forall name :: name in tags ==> tags[name] in entries
  {
    if entries == [] then map[]
    else
      var last := entries[|entries| - 1];
      ImageTagsOf(entries[..|entries| - 1])[ParseImageName(last) := last]
  }

  /** The map the redeploy step works with: empty for a null or blank
      parameter, otherwise built from the `;`-separated entries. */
  function ImageTagsFor(images: Option<string>): (tags: map<string, string>)
    ensures IsBlank(images) ==> tags == map[]
    ensures forall name :: name in tags ==> ParseImageName(tags[name]) == name
  {
    if IsBlank(images) then map[]
    else
      var entries := Split(images.value, ';');
      ImageTagsValuesNamed(entries);
      ImageTagsOf(entries)
  }

  /** Every value in the map is a reference to the image named by its key. */
  predicate ValuesNamedByKeys(tags: map<string, string>) {
    forall name :: name in tags ==> ParseImageName(tags[name]) == name
  }

  lemma {:induction false} ImageTagsValuesNamed(entries: seq<string>)
    ensures ValuesNamedByKeys(ImageTagsOf(entries))
    ensures forall name :: name in ImageTagsOf(entries) ==> ImageTagsOf(entries)[name] in entries
  {
    if entries != [] {
      var init := entries[..|entries| - 1];
      ImageTagsValuesNamed(init);
      forall name | name in ImageTagsOf(init)
        ensures ImageTagsOf(init)[name] in entries
      {
        var k :| 0 <= k < |init| && init[k] == ImageTagsOf(init)[name];
        assert entries[k] == init[k];
      }
    }
  }

  /** The keys are exactly the image names of the entries. */
  lemma {:induction false} ImageTagsKeys(entries: seq<string>)
    ensures ImageTagsOf(entries).Keys == NamesOfEntries(entries)
  {
    if entries != [] {
      var init := entries[..|entries| - 1];
      var last := entries[|entries| - 1];
      ImageTagsKeys(init);
      forall name | name in NamesOfEntries(entries)
        ensures name in NamesOfEntries(init) + {ParseImageName(last)}
      {
        var i :| 0 <= i < |entries| && ParseImageName(entries[i]) == name;
        if i < |entries| - 1 {
          assert init[i] == entries[i];
        }
      }
      forall name | name in NamesOfEntries(init)
        ensures name in NamesOfEntries(entries)
      {
        var i :| 0 <= i < |init| && ParseImageName(init[i]) == name;
        assert entries[i] == init[i];
      }
    }
  }

  /** The entry kept for a name is the last one that has that name. */
  lemma {:induction false} ImageTagsLastWins(entries: seq<string>, i: nat)
    requires i < |entries|
    requires forall j :: i < j < |entries| ==> ParseImageName(entries[j]) != ParseImageName(entries[i])
    ensures ParseImageName(entries[i]) in ImageTagsOf(entries)
    ensures ImageTagsOf(entries)[ParseImageName(entries[i])] == entries[i]
  {
    if i < |entries| - 1 {
      var init := entries[..|entries| - 1];
      forall j | i < j < |init|
        ensures ParseImageName(init[j]) != ParseImageName(init[i])
      {
        assert init[j] == entries[j];
      }
      ImageTagsLastWins(init, i);
      assert init[i] == entries[i];
    }
  }

  /** The first loop of perform: the map filled entry by entry with `put`. */
  method BuildImageTags(images: Option<string>) returns (tags: map<string, string>)
    ensures tags == ImageTagsFor(images)
  {
    tags := map[];
    if !IsBlank(images) {
      var entries := Split(images.value, ';');
      var i := 0;
      while i < |entries|
        invariant 0 <= i <= |entries|
        invariant tags == ImageTagsOf(entries[..i])
      {
        var name := ParseImageName(entries[i]);
        assert entries[..i + 1][..i] == entries[..i];
        tags := tags[name := entries[i]];
        i := i + 1;
      }
      assert entries[..i] == entries;
    }
  }
}
