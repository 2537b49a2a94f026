/**
 * The handful of PHP built-ins the plugin's plain logic relies on, with the
 * semantics of PHP 8: `strpos` (first occurrence), its two idioms
 * `strpos(..) === 0` (prefix test) and `strpos(..) !== false` (substring
 * test), `str_replace` (every non-overlapping occurrence, left to right) and
 * the truthiness of a string (`''` and `'0'` are falsy).
 */
module Php {

  /** `false`/`null` versus a value: PHP functions that return "a value or false". */
  datatype Option<+T> = None | Some(value: T)

  /** `empty($s)` / `! $s` for a string: only '' and '0' are falsy. */
  predicate IsFalsyString(s: string)
    ensures IsFalsyString(s) <==> |s| == 0 || (|s| == 1 && s[0] == '0')
  {
    s == "" || s == "0"
  }

  /** `needle` occurs in `s` starting at index `i`. */
  ghost predicate OccursAt(s: string, needle: string, i: int)
  {
    0 <= i && i + |needle| <= |s| && s[i..i + |needle|] == needle
  }

  /** `strpos($haystack, $needle)`: the first index at which `needle` occurs, or false. */
  function StrPos(haystack: string, needle: string): (r: Option<nat>)
    ensures r.Some? ==> OccursAt(haystack, needle, r.value)
    ensures r.Some? ==> forall j :: 0 <= j < r.value ==> !OccursAt(haystack, needle, j)
    ensures r.None? ==> forall j :: !OccursAt(haystack, needle, j)
    decreases |haystack|
  {
    if needle <= haystack then Some(0)
    else if haystack == [] then None
    else
      TailShift(haystack, needle);
      match StrPos(haystack[1..], needle)
      case None => None
      case Some(i) => Some(i + 1)
  }

  /** Past the first character, the occurrences are those of the tail, one index on. */
  lemma TailShift(s: string, needle: string)
    requires s != []
    ensures forall j :: 1 <= j ==> (OccursAt(s, needle, j) <==> OccursAt(s[1..], needle, j - 1))
  {
    forall j | 1 <= j ensures OccursAt(s, needle, j) <==> OccursAt(s[1..], needle, j - 1) {
      assert s == [s[0]] + s[1..];
      OccursAfterPrefix([s[0]], s[1..], needle, j - 1);
    }
  }

  /** `strpos($haystack, $needle) !== false` */
  predicate Contains(haystack: string, needle: string)
    ensures Contains(haystack, needle) <==> exists i :: OccursAt(haystack, needle, i)
  {
    StrPos(haystack, needle).Some?
  }

  /** `strpos($haystack, $needle) === 0` */
  predicate StartsWith(haystack: string, needle: string)
    ensures StartsWith(haystack, needle) <==> needle <= haystack
  {
    assert needle <= haystack <==> OccursAt(haystack, needle, 0);
    StrPos(haystack, needle) == Some(0)
  }

  /**
   * `substr($s, $start, $length)` for a non-negative start and length: at most
   * `length` characters from `start` on, and '' when `start` is past the end.
   */
  function Substr(s: string, start: nat, length: nat): (r: string)
    ensures start <= |s| ==> r <= s[start..] && |r| == if length < |s| - start then length else |s| - start
    ensures start > |s| ==> r == ""
  {
    if start > |s| then ""
    else if length < |s| - start then s[start..start + length]
    else s[start..]
  }

  /**
   * `str_replace($search, $replace, $subject)` with one search string: every
   * occurrence, scanning left to right, is replaced, and the scan resumes after
   * the replaced occurrence (so occurrences never overlap). An empty search
   * string leaves the subject unchanged. Replacing with something no longer
   * than the search string never lengthens the subject.
   */
  function StrReplace(search: string, replace: string, subject: string): (r: string)
    ensures |replace| <= |search| ==> |r| <= |subject|
    decreases |subject|
  {
    if search == [] then subject
    else if search <= subject then replace + StrReplace(search, replace, subject[|search|..])
    else if subject == [] then []
    else [subject[0]] + StrReplace(search, replace, subject[1..])
  }

  /** An occurrence in the tail of a string is an occurrence in the string. */
  lemma TailOccurrence(s: string, needle: string)
    requires s != []
    ensures Contains(s[1..], needle) ==> Contains(s, needle)
  {
    if Contains(s[1..], needle) {
      var j :| OccursAt(s[1..], needle, j);
      assert s[j + 1..j + 1 + |needle|] == s[1..][j..j + |needle|];
      assert OccursAt(s, needle, j + 1);
    }
  }

  /** A subject without any occurrence of the search string comes back unchanged. */
  lemma {:induction false} StrReplaceAbsent(search: string, replace: string, subject: string)
    requires !Contains(subject, search)
    ensures StrReplace(search, replace, subject) == subject
    decreases |subject|
  {
    if search != [] && subject != [] {
      assert !OccursAt(subject, search, 0);
      TailOccurrence(subject, search);
      StrReplaceAbsent(search, replace, subject[1..]);
    }
  }

  /** An occurrence past a prefix is an occurrence in what follows the prefix, and back. */
  lemma OccursAfterPrefix(p: string, t: string, needle: string, i: int)
    requires 0 <= i
    ensures OccursAt(p + t, needle, |p| + i) <==> OccursAt(t, needle, i)
  {
    if i + |needle| <= |t| {
      assert (p + t)[|p| + i..|p| + i + |needle|] == t[i..i + |needle|];
    }
  }

  /** Past a start that is not an occurrence, the scan copies the first character and moves on. */
  lemma StrReplaceStep(search: string, replace: string, subject: string)
    requires search != [] && subject != [] && !(search <= subject)
    ensures StrReplace(search, replace, subject) == [subject[0]] + StrReplace(search, replace, subject[1..])
  {
  }

  /**
   * Left to right: when the subject is `pre`, the search string and `post`,
   * and the search string occurs nowhere before, `pre` is kept, that
   * occurrence is replaced, and the scan resumes after it.
   */
  lemma {:induction false} StrReplaceAfterPrefix(search: string, replace: string, subject: string, pre: string, post: string)
    requires search != [] && subject == pre + search + post
    requires forall j :: 0 <= j < |pre| ==> !OccursAt(subject, search, j)
    ensures StrReplace(search, replace, subject) == pre + replace + StrReplace(search, replace, post)
    decreases |pre|
  {
    if pre == [] {
      assert subject == search + post;
      StrReplaceLeading(search, replace, post);
    } else {
      var c, rest := pre[0], pre[1..];
      var tail := rest + search + post;
      ConsSplit(pre, search, post);
      assert search <= subject ==> OccursAt(subject, search, 0);
      forall j | 0 <= j < |rest| ensures !OccursAt(tail, search, j) {
        OccursAfterPrefix([c], tail, search, j);
      }
      StrReplaceAfterPrefix(search, replace, tail, rest, post);
      StrReplaceStep(search, replace, subject);
      ConsSplit(pre, replace, StrReplace(search, replace, post));
    }
  }

  /** Taking the first character off a non-empty front, and the tail that remains. */
  lemma ConsSplit(pre: string, middle: string, post: string)
    requires pre != []
    ensures pre + middle + post == [pre[0]] + (pre[1..] + middle + post)
    ensures (pre + middle + post)[1..] == pre[1..] + middle + post
  {
    assert pre == [pre[0]] + pre[1..];
  }

  /**
   * Deleting: when the search string occurs once, after `pre` and never in
   * `post`, the subject loses exactly that occurrence.
   */
  lemma StrReplaceDeleteOnce(search: string, subject: string, pre: string, post: string)
    requires search != [] && subject == pre + search + post
    requires forall j :: 0 <= j < |pre| ==> !OccursAt(subject, search, j)
    requires !Contains(post, search)
    ensures StrReplace(search, "", subject) == pre + post
  {
    var rest := StrReplace(search, "", post);
    assert rest == post by {
      StrReplaceAbsent(search, "", post);
    }
    assert StrReplace(search, "", subject) == pre + "" + rest by {
      StrReplaceAfterPrefix(search, "", subject, pre, post);
    }
    assert pre + "" + rest == pre + post;
  }

  /**
   * The same by index: the first occurrence (the index `strpos` returns, by
   * its contract) is the first one replaced; what stands before it is kept,
   * and the scan resumes after it.
   */
  lemma StrReplaceFirstOccurrence(search: string, replace: string, subject: string, i: nat)
    requires search != [] && OccursAt(subject, search, i)
    requires forall j :: 0 <= j < i ==> !OccursAt(subject, search, j)
    ensures StrReplace(search, replace, subject)
         == subject[..i] + replace + StrReplace(search, replace, subject[i + |search|..])
  {
    SplitAtOccurrence(subject, search, i);
    StrReplaceAfterPrefix(search, replace, subject, subject[..i], subject[i + |search|..]);
  }

  /** An occurrence splits a string into what stands before it, the needle, and the rest. */
  lemma SplitAtOccurrence(s: string, needle: string, i: nat)
    requires OccursAt(s, needle, i)
    ensures s == s[..i] + needle + s[i + |needle|..]
  {
    assert s[i..] == needle + s[i + |needle|..];
    assert s == s[..i] + s[i..];
  }

  /** A character that cannot start an occurrence is copied and the scan moves on. */
  lemma StrReplaceSkipsChar(search: string, replace: string, c: char, rest: string)
    requires search != [] && c != search[0]
    ensures StrReplace(search, replace, [c] + rest) == [c] + StrReplace(search, replace, rest)
  {
    var s := [c] + rest;
    assert s[0] == c;
    assert s[1..] == rest;
  }

  /**
   * A stretch none of whose characters can start an occurrence passes through
   * the scan unchanged, and the scan carries on with what follows it.
   */
  lemma {:induction false} StrReplaceSkips(search: string, replace: string, a: string, b: string)
    requires search != []
    requires forall k :: 0 <= k < |a| ==> a[k] != search[0]
    ensures StrReplace(search, replace, a + b) == a + StrReplace(search, replace, b)
    decreases |a|
  {
    if a == [] {
      assert a + b == b;
    } else {
      var c, t := a[0], a[1..];
      assert a == [c] + t;
      assert a + b == [c] + (t + b);
      var r := StrReplace(search, replace, b);
      assert a + r == [c] + (t + r);
      assert forall k :: 0 <= k < |t| ==> t[k] != search[0];
      StrReplaceSkips(search, replace, t, b);
      StrReplaceSkipsChar(search, replace, c, t + b);
    }
  }

  /** An occurrence at the very start is replaced and the scan resumes right after it. */
  lemma StrReplaceLeading(search: string, replace: string, rest: string)
    requires search != []
    ensures StrReplace(search, replace, search + rest) == replace + StrReplace(search, replace, rest)
    ensures replace == [] ==> StrReplace(search, replace, search + rest) == StrReplace(search, replace, rest)
  {
    assert search <= search + rest;
    assert (search + rest)[|search|..] == rest;
  }

  /**
   * Deleting (replacing with '') never lengthens the subject, and when the
   * search string occurs it shortens the subject by at least its length.
   */
  lemma {:induction false} StrReplaceDeleteShrinks(search: string, subject: string)
    ensures |StrReplace(search, "", subject)| <= |subject|
    ensures search != [] && Contains(subject, search) ==>
              |StrReplace(search, "", subject)| + |search| <= |subject|
    decreases |subject|
  {
    if search != [] && Contains(subject, search) {
      var i :| OccursAt(subject, search, i);
      if search <= subject {
        StrReplaceLeading(search, "", subject[|search|..]);
        assert subject == search + subject[|search|..];
      } else {
        var tail := subject[1..];
        assert OccursAt(subject, search, 0) ==> search <= subject;
        assert OccursAt(tail, search, i - 1) by {
          TailShift(subject, search);
        }
        StrReplaceDeleteShrinks(search, tail);
        StrReplaceStep(search, "", subject);
      }
    }
  }
}
