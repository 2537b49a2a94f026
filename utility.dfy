/**
 * The plain logic of the plugin's static utility class: recognising column
 * identifiers (`column-meta-<field>`, `column-taxonomy-<tax>`, `taxonomy-<tax>`,
 * `column-user_postcount-<post type>`), extracting what they name, and picking
 * the author field a "name type" setting asks for from a user record.
 */
module Utility {
  import opened Php

  const MetaMarker: string := "column-meta-"
  const TaxonomyMarker: string := "column-taxonomy-"
  const ShortTaxonomyMarker: string := "taxonomy-"
  const PostcountMarker: string := "column-user_postcount-"

  /** A custom-field column: `column-meta-` occurs anywhere in the name, not only at its start. */
  predicate IsColumnCustomField(columnName: string)
    ensures IsColumnCustomField(columnName) <==> exists i :: OccursAt(columnName, MetaMarker, i)
  {
    Contains(columnName, MetaMarker)
  }

  /** A taxonomy column: the name starts with `column-taxonomy-` or with `taxonomy-`. */
  predicate IsColumnTaxonomy(columnName: string)
    ensures IsColumnTaxonomy(columnName) <==> TaxonomyMarker <= columnName || ShortTaxonomyMarker <= columnName
  {
    StartsWith(columnName, TaxonomyMarker) || StartsWith(columnName, ShortTaxonomyMarker)
  }

  /** The type name `column-taxonomy` does not itself look like a custom-field column. */
  lemma TaxonomyTypeIsNotCustomField()
    ensures !IsColumnCustomField("column-taxonomy")
  {
    var s := "column-taxonomy";
    forall i ensures !OccursAt(s, MetaMarker, i) {
      if 0 <= i && i + |MetaMarker| <= |s| {
        assert s[i..i + |MetaMarker|][7] == s[i + 7] != MetaMarker[7];
      }
    }
  }

  /**
   * The column's name type. The taxonomy test comes first and the custom-field
   * test is then applied to its outcome, so a taxonomy column stays
   * `column-taxonomy` even when its name also contains `column-meta-`.
   */
  function ColumnNameType(columnName: string): (r: string)
    ensures IsColumnTaxonomy(columnName) ==> r == "column-taxonomy"
    ensures !IsColumnTaxonomy(columnName) && IsColumnCustomField(columnName) ==> r == "column-meta"
    ensures !IsColumnTaxonomy(columnName) && !IsColumnCustomField(columnName) ==> r == columnName
  {
    TaxonomyTypeIsNotCustomField();
    var name := if IsColumnTaxonomy(columnName) then "column-taxonomy" else columnName;
    if IsColumnCustomField(name) then "column-meta" else name
  }

  /**
   * The post type of a post-count column (`column-user_postcount-<post type>`),
   * or false when the marker occurs nowhere. Every occurrence of the marker is
   * deleted, wherever it stands.
   */
  function PosttypeByPostcountColumn(columnName: string): (r: Option<string>)
    ensures r.Some? <==> exists i :: OccursAt(columnName, PostcountMarker, i)
    ensures r.Some? ==> |r.value| + |PostcountMarker| <= |columnName|
  {
    if Contains(columnName, PostcountMarker) then
      StrReplaceDeleteShrinks(PostcountMarker, columnName);
      Some(StrReplace(PostcountMarker, "", columnName))
    else
      None
  }

  /** `column-user_postcount-` followed by a post type gives back that post type. */
  lemma PosttypeOfPostcountColumn(postType: string)
    requires !Contains(postType, PostcountMarker)
    ensures PosttypeByPostcountColumn(PostcountMarker + postType) == Some(postType)
  {
    var name := PostcountMarker + postType;
    assert name[0..|PostcountMarker|] == PostcountMarker;
    assert OccursAt(name, PostcountMarker, 0);
    assert Contains(name, PostcountMarker);
    StrReplaceLeading(PostcountMarker, "", postType);
    StrReplaceAbsent(PostcountMarker, "", postType);
  }

  /**
   * The marker need not lead the name: what stands before its first
   * occurrence is kept and joined to the post type that follows it.
   */
  lemma PosttypeOfEmbeddedMarker(head: string, postType: string)
    requires forall j :: 0 <= j < |head| ==> !OccursAt(head + PostcountMarker + postType, PostcountMarker, j)
    requires !Contains(postType, PostcountMarker)
    ensures PosttypeByPostcountColumn(head + PostcountMarker + postType) == Some(head + postType)
  {
    var name := head + PostcountMarker + postType;
    assert name[|head|..|head| + |PostcountMarker|] == PostcountMarker;
    PosttypeWhenPresent(name, |head|);
    StrReplaceDeleteOnce(PostcountMarker, name, head, postType);
  }

  /** Where the marker occurs, the post type is the name with every marker deleted. */
  lemma PosttypeWhenPresent(columnName: string, i: int)
    requires OccursAt(columnName, PostcountMarker, i)
    ensures PosttypeByPostcountColumn(columnName) == Some(StrReplace(PostcountMarker, "", columnName))
  {
  }

  /**
   * The taxonomy of a taxonomy column, or false for any other name:
   * `column-taxonomy-` is deleted everywhere first, then `taxonomy-` is deleted
   * everywhere in what remains.
   */
  function TaxonomyByColumnName(columnName: string): (r: Option<string>)
    ensures r.None? <==> !(TaxonomyMarker <= columnName || ShortTaxonomyMarker <= columnName)
    ensures r.Some? ==> |r.value| + |ShortTaxonomyMarker| <= |columnName|
  {
    if !IsColumnTaxonomy(columnName) then None
    else
      var once := StrReplace(TaxonomyMarker, "", columnName);
      var twice := StrReplace(ShortTaxonomyMarker, "", once);
      TaxonomyLength(columnName);
      Some(twice)
  }

  /** The two deletions of TaxonomyByColumnName remove at least one marker from a taxonomy column. */
  lemma TaxonomyLength(columnName: string)
    requires TaxonomyMarker <= columnName || ShortTaxonomyMarker <= columnName
    ensures |StrReplace(ShortTaxonomyMarker, "", StrReplace(TaxonomyMarker, "", columnName))|
              + |ShortTaxonomyMarker| <= |columnName|
  {
    if TaxonomyMarker <= columnName {
      var rest := columnName[|TaxonomyMarker|..];
      assert columnName == TaxonomyMarker + rest;
      var once := StrReplace(TaxonomyMarker, "", rest);
      StrReplaceLeading(TaxonomyMarker, "", rest);
      assert StrReplace(TaxonomyMarker, "", columnName) == once;
      StrReplaceDeleteShrinks(TaxonomyMarker, rest);
      StrReplaceDeleteShrinks(ShortTaxonomyMarker, once);
    } else {
      var rest := columnName[|ShortTaxonomyMarker|..];
      assert columnName == ShortTaxonomyMarker + rest;
      var once := StrReplace(TaxonomyMarker, "", rest);
      StrReplaceSkips(TaxonomyMarker, "", ShortTaxonomyMarker, rest);
      assert StrReplace(TaxonomyMarker, "", columnName) == ShortTaxonomyMarker + once;
      StrReplaceLeading(ShortTaxonomyMarker, "", once);
      StrReplaceDeleteShrinks(TaxonomyMarker, rest);
      StrReplaceDeleteShrinks(ShortTaxonomyMarker, once);
    }
  }

  /** A name free of `taxonomy-` is also free of `column-taxonomy-`, which contains it. */
  lemma ShortMarkerInsideLong(s: string)
    requires !Contains(s, ShortTaxonomyMarker)
    ensures !Contains(s, TaxonomyMarker)
  {
    assert TaxonomyMarker[7..] == ShortTaxonomyMarker;
    forall i | OccursAt(s, TaxonomyMarker, i) ensures OccursAt(s, ShortTaxonomyMarker, i + 7) {
      assert s[i + 7..i + 7 + |ShortTaxonomyMarker|] == s[i..i + |TaxonomyMarker|][7..];
    }
  }

  /** `column-taxonomy-<tax>` names the taxonomy `<tax>`. */
  lemma TaxonomyOfColumnTaxonomy(taxonomy: string)
    requires !Contains(taxonomy, ShortTaxonomyMarker)
    ensures TaxonomyByColumnName(TaxonomyMarker + taxonomy) == Some(taxonomy)
  {
    var name := TaxonomyMarker + taxonomy;
    assert TaxonomyMarker <= name;
    assert IsColumnTaxonomy(name);
    ShortMarkerInsideLong(taxonomy);
    StrReplaceLeading(TaxonomyMarker, "", taxonomy);
    StrReplaceAbsent(TaxonomyMarker, "", taxonomy);
    assert StrReplace(TaxonomyMarker, "", name) == taxonomy;
    StrReplaceAbsent(ShortTaxonomyMarker, "", taxonomy);
  }

  /** `taxonomy-<tax>` names the taxonomy `<tax>` as well. */
  lemma TaxonomyOfShortTaxonomy(taxonomy: string)
    requires !Contains(taxonomy, ShortTaxonomyMarker)
    ensures TaxonomyByColumnName(ShortTaxonomyMarker + taxonomy) == Some(taxonomy)
  {
    var name := ShortTaxonomyMarker + taxonomy;
    assert ShortTaxonomyMarker <= name;
    assert IsColumnTaxonomy(name);
    ShortMarkerInsideLong(taxonomy);
    StrReplaceSkips(TaxonomyMarker, "", ShortTaxonomyMarker, taxonomy);
    StrReplaceAbsent(TaxonomyMarker, "", taxonomy);
    assert StrReplace(TaxonomyMarker, "", name) == name;
    StrReplaceLeading(ShortTaxonomyMarker, "", taxonomy);
    StrReplaceAbsent(ShortTaxonomyMarker, "", taxonomy);
  }

  /** The user record `get_userdata` returns (the fields the author column reads). */
  datatype UserData = UserData(
    id: int,
    displayName: string,
    firstName: string,
    lastName: string,
    nickname: string,
    userLogin: string,
    userEmail: string)

  /** The properties of a user record an author column can show. */
  datatype UserProperty = DisplayName | FirstName | LastName | Nickname | UserLogin | UserEmail | Id

  /** A PHP value read from a user record: a string, the integer ID, or null. */
  datatype FieldValue = Null | Text(text: string) | Number(number: int)

  /**
   * `$userdata->property`. `get_userdata` gives false for an unknown user,
   * and reading a property of false yields null.
   */
  function Property(user: Option<UserData>, p: UserProperty): FieldValue
  {
    match user
    case None => Null
    case Some(u) =>
      match p
      case DisplayName => Text(u.displayName)
      case FirstName => Text(u.firstName)
      case LastName => Text(u.lastName)
      case Nickname => Text(u.nickname)
      case UserLogin => Text(u.userLogin)
      case UserEmail => Text(u.userEmail)
      case Id => Number(u.id)
  }

  /** The name types that select a single property, with the property each selects. */
  const SingleFieldNametypes: map<string, UserProperty> := map[
    "display_name" := DisplayName,
    "first_name" := FirstName,
    "last_name" := LastName,
    "nickname" := Nickname,
    "username" := UserLogin,
    "email" := UserEmail,
    "userid" := Id]

  /**
   * The author field a name type selects. `first_last_name` joins the first
   * name and, when the last name is not empty, a space and the last name
   * (PHP's `empty` holds for '' and '0'); an unknown name type falls back to
   * the display name.
   */
  function AuthorFieldByNametype(nametype: string, user: Option<UserData>): (r: FieldValue)
    ensures nametype in SingleFieldNametypes ==> r == Property(user, SingleFieldNametypes[nametype])
    ensures nametype !in SingleFieldNametypes && nametype != "first_last_name" ==> r == Property(user, DisplayName)
    ensures nametype == "first_last_name" && user.None? ==> r == Text("")
    ensures nametype == "first_last_name" && user.Some? ==>
              r.Text? &&
              (IsFalsyString(user.value.lastName) ==>
                 r.text == if IsFalsyString(user.value.firstName) then "" else user.value.firstName) &&
              (!IsFalsyString(user.value.lastName) ==>
                 r.text == (if IsFalsyString(user.value.firstName) then "" else user.value.firstName)
                             + " " + user.value.lastName)
  {
    if nametype == "display_name" then Property(user, DisplayName)
    else if nametype == "first_name" then Property(user, FirstName)
    else if nametype == "last_name" then Property(user, LastName)
    else if nametype == "first_last_name" then
      var first := if user.Some? && !IsFalsyString(user.value.firstName) then user.value.firstName else "";
      var last := if user.Some? && !IsFalsyString(user.value.lastName) then " " + user.value.lastName else "";
      assert user.None? ==> first + last == "";
      Text(first + last)
    else if nametype == "nickname" then Property(user, Nickname)
    else if nametype == "username" then Property(user, UserLogin)
    else if nametype == "email" then Property(user, UserEmail)
    else if nametype == "userid" then Property(user, Id)
    else Property(user, DisplayName)
  }

  /** Any name type the switch does not name gives what `display_name` gives. */
  lemma UnknownNametypeIsDisplayName(nametype: string, user: Option<UserData>)
    requires nametype !in SingleFieldNametypes && nametype != "first_last_name"
    ensures AuthorFieldByNametype(nametype, user) == AuthorFieldByNametype("display_name", user)
  {
  }

  /** Both names set: `first last`. */
  lemma FirstLastNameJoined(u: UserData)
    requires !IsFalsyString(u.firstName) && !IsFalsyString(u.lastName)
    ensures AuthorFieldByNametype("first_last_name", Some(u)) == Text(u.firstName + " " + u.lastName)
  {
  }

  /** An empty first name and a set last name give the last name with a leading space. */
  lemma FirstLastNameLeadingSpace(u: UserData)
    requires IsFalsyString(u.firstName) && !IsFalsyString(u.lastName)
    ensures AuthorFieldByNametype("first_last_name", Some(u)) == Text(" " + u.lastName)
  {
  }
}
