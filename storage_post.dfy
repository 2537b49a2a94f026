/**
 * The post storage model: the object that holds one post type's column
 * settings, and the part of its meta-key lookup that is plain logic. The query
 * that lists a post type's distinct meta keys is a parameter here (its rows are
 * given by their first and only column, the key); the filters the plugin runs
 * on the flag and on the result are the identity, the flag being a parameter.
 */
module StoragePost {
  import opened Php

  /** Prefix that marks a hidden meta key once hidden keys are admitted. */
  const HiddenPrefix: string := "cpachidden"

  /** A hidden meta key: `substr($key, 0, 1) == "_"`, that is, its first character is `_`. */
  predicate IsHiddenKey(key: string)
    ensures IsHiddenKey(key) <==> |key| > 0 && key[0] == '_'
  {
    Substr(key, 0, 1) == "_"
  }

  /** What one input key contributes to the list: the key, its renamed form, or nothing. */
  function KeyContribution(key: string, useHiddenMeta: bool): seq<string>
  {
    if useHiddenMeta && IsHiddenKey(key) then [HiddenPrefix + key]
    else if !IsHiddenKey(key) then [key]
    else []
  }

  /** The combined list built from `keys`, one key after another. */
  function CombinedFields(keys: seq<string>, useHiddenMeta: bool): seq<string>
    decreases |keys|
  {
    if keys == [] then []
    else CombinedFields(keys[..|keys| - 1], useHiddenMeta) + KeyContribution(keys[|keys| - 1], useHiddenMeta)
  }

  /** The list, or false when it is empty. */
  function NonEmptyOrFalse(fields: seq<string>): (r: Option<seq<string>>)
  {
    if fields == [] then None else Some(fields)
  }

  /** The output is never longer than the input, and exactly as long when hidden keys are admitted. */
  lemma {:induction false} CombinedFieldsLength(keys: seq<string>, useHiddenMeta: bool)
    ensures |CombinedFields(keys, useHiddenMeta)| <= |keys|
    ensures useHiddenMeta ==> |CombinedFields(keys, useHiddenMeta)| == |keys|
    decreases |keys|
  {
    if keys != [] {
      CombinedFieldsLength(keys[..|keys| - 1], useHiddenMeta);
    }
  }

  /** One more key adds its contribution at the end. */
  lemma CombinedFieldsSnoc(keys: seq<string>, key: string, useHiddenMeta: bool)
    ensures CombinedFields(keys + [key], useHiddenMeta) == CombinedFields(keys, useHiddenMeta) + KeyContribution(key, useHiddenMeta)
  {
    assert (keys + [key])[..|keys|] == keys;
  }

  /**
   * The list of a concatenation is the concatenation of the lists: whatever
   * comes from an earlier key stands before whatever comes from a later one,
   * so the keys keep their relative order.
   */
  lemma {:induction false} CombinedFieldsAppend(a: seq<string>, b: seq<string>, useHiddenMeta: bool)
    ensures CombinedFields(a + b, useHiddenMeta) == CombinedFields(a, useHiddenMeta) + CombinedFields(b, useHiddenMeta)
    decreases |b|
  {
    if b == [] {
      assert a + b == a;
    } else {
      var front, key := b[..|b| - 1], b[|b| - 1];
      var last := KeyContribution(key, useHiddenMeta);
      assert b == front + [key];
      assert a + b == (a + front) + [key];
      assert CombinedFields(a + b, useHiddenMeta) == CombinedFields(a + front, useHiddenMeta) + last by {
        CombinedFieldsSnoc(a + front, key, useHiddenMeta);
      }
      assert CombinedFields(b, useHiddenMeta) == CombinedFields(front, useHiddenMeta) + last by {
        CombinedFieldsSnoc(front, key, useHiddenMeta);
      }
      CombinedFieldsAppend(a, front, useHiddenMeta);
    }
  }

  /** With hidden keys admitted, each position holds its input key, renamed when it is hidden. */
  lemma {:induction false} CombinedFieldsRenamesInPlace(keys: seq<string>, i: nat)
    requires i < |keys|
    ensures |CombinedFields(keys, true)| == |keys|
    ensures CombinedFields(keys, true)[i] == if IsHiddenKey(keys[i]) then HiddenPrefix + keys[i] else keys[i]
    decreases |keys|
  {
    var front := keys[..|keys| - 1];
    CombinedFieldsLength(front, true);
    if i < |keys| - 1 {
      CombinedFieldsRenamesInPlace(front, i);
    }
  }

  /**
   * With hidden keys refused, the list holds exactly the input's keys that are
   * not hidden.
   */
  lemma {:induction false} CombinedFieldsDropsHidden(keys: seq<string>, key: string)
    ensures key in CombinedFields(keys, false) <==> key in keys && !IsHiddenKey(key)
    decreases |keys|
  {
    if keys != [] {
      var front := keys[..|keys| - 1];
      CombinedFieldsDropsHidden(front, key);
      assert keys == front + [keys[|keys| - 1]];
    }
  }

  /** Keys that are not hidden are copied unchanged, whatever the flag. */
  lemma {:induction false} CombinedFieldsVisibleUnchanged(keys: seq<string>, useHiddenMeta: bool)
    requires forall k :: k in keys ==> !IsHiddenKey(k)
    ensures CombinedFields(keys, useHiddenMeta) == keys
    decreases |keys|
  {
    if keys != [] {
      var front := keys[..|keys| - 1];
      CombinedFieldsVisibleUnchanged(front, useHiddenMeta);
      assert keys == front + [keys[|keys| - 1]];
    }
  }

  /** What the lookup query gave back: an error object or the rows' keys. */
  datatype QueryResult = QueryError | Rows(keys: seq<string>)

  class PostStorageModel {
    /** The post type. */
    var key: string
    /** The post type's singular label (`label` in the source; a keyword in Dafny). */
    var singularLabel: string
    /** The kind of storage model (`type` in the source; a keyword in Dafny). */
    var kind: string

    /** The post type's label comes from the post-type registry and is given here. */
    constructor (postType: string, postTypeLabel: string)
      ensures key == postType && singularLabel == postTypeLabel && kind == "post"
    {
      key := postType;
      singularLabel := postTypeLabel;
      kind := "post";
    }

    /**
     * Builds the meta-key list: hidden keys are dropped, or renamed with the
     * `cpachidden` prefix when `useHiddenMeta` is set; the others are kept as
     * they are. False (None) comes back for a false or empty input and for an
     * empty result.
     */
    method MaybeAddHiddenMeta(fields: Option<seq<string>>, useHiddenMeta: bool) returns (r: Option<seq<string>>)
      ensures fields.None? || fields.value == [] ==> r.None?
      ensures fields.Some? && fields.value != [] ==> r == NonEmptyOrFalse(CombinedFields(fields.value, useHiddenMeta))
      ensures r.Some? ==> fields.Some? && 0 < |r.value| <= |fields.value|
      ensures useHiddenMeta && fields.Some? && fields.value != [] ==> r.Some? && |r.value| == |fields.value|
    {
      if fields.None? || fields.value == [] {
        return None;
      }
      var keys := fields.value;
      var combined: seq<string> := [];
      var i := 0;
      while i < |keys|
        invariant 0 <= i <= |keys|
        invariant combined == CombinedFields(keys[..i], useHiddenMeta)
      {
        var field := keys[i];
        if useHiddenMeta && IsHiddenKey(field) {
          combined := combined + [HiddenPrefix + field];
        } else if !IsHiddenKey(field) {
          combined := combined + [field];
        }
        assert keys[..i + 1][..i] == keys[..i];
        i := i + 1;
      }
      assert keys[..i] == keys;
      CombinedFieldsLength(keys, useHiddenMeta);
      if combined == [] {
        return None;
      }
      return Some(combined);
    }

    /** The meta keys of this post type: a query error is passed on as false. */
    method GetMetaKeys(query: QueryResult, useHiddenMeta: bool) returns (r: Option<seq<string>>)
      ensures query.QueryError? ==> r.None?
      ensures query.Rows? ==> r == NonEmptyOrFalse(CombinedFields(query.keys, useHiddenMeta))
    {
      var fields := if query.QueryError? then None else Some(query.keys);
      r := MaybeAddHiddenMeta(fields, useHiddenMeta);
    }
  }
}
