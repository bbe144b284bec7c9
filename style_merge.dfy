/**
 * The string computation at the heart of RubyScape#set_attribute_property:
 * how a `property:value;` setting is merged into an existing style
 * declaration, with the behaviour of Ruby's `include?` and of the greedy
 * `gsub(/property\:.*(\;|$)/, ...)` written out on sequences of characters.
 * The property is read literally (see README, "Left out").
 */
module StyleMerge {
  import opened Wrappers

  /** RubyScape#setting: the text `property:value;`. */
  function Setting(property: string, value: string): string
  {
    property + ":" + value + ";"
  }

  /** `pat` occurs in `s` starting at index `i`. */
  predicate OccursAt(s: string, pat: string, i: int)
  {
    0 <= i && i + |pat| <= |s| && s[i..i + |pat|] == pat
  }

  /** Ruby's String#include?: a plain substring test. */
  predicate Contains(s: string, pat: string)
  {
    exists i :: 0 <= i <= |s| - |pat| && OccursAt(s, pat, i)
  }

  /** The first occurrence of `pat` in `s` at or after `from`. */
  function IndexFrom(s: string, pat: string, from: nat): (r: Option<nat>)
    decreases |s| - from
    ensures r.Some? ==> from <= r.value && OccursAt(s, pat, r.value)
    ensures r.Some? ==> forall k :: from <= k < r.value ==> !OccursAt(s, pat, k)
    ensures r.None? ==> forall k :: from <= k ==> !OccursAt(s, pat, k)
  {
    if |s| < from + |pat| then None
    else if s[from..from + |pat|] == pat then Some(from)
    else IndexFrom(s, pat, from + 1)
  }

  /** The first occurrence of `pat` in `s`, if any. */
  function IndexOf(s: string, pat: string): (r: Option<nat>)
    ensures r.None? <==> !Contains(s, pat)
    ensures r.Some? ==> OccursAt(s, pat, r.value)
    ensures r.Some? ==> forall k :: 0 <= k < r.value ==> !OccursAt(s, pat, k)
  {
    IndexFrom(s, pat, 0)
  }

  /** The first index at or after `from` holding `c`, or |s| if there is none. */
  function NextFrom(s: string, from: nat, c: char): (j: nat)
    requires from <= |s|
    decreases |s| - from
    ensures from <= j <= |s|
    ensures forall k :: from <= k < j ==> s[k] != c
    ensures j < |s| ==> s[j] == c
  {
    if from == |s| || s[from] == c then from else NextFrom(s, from + 1, c)
  }

  /**
   * `s.gsub(/pat.*(\;|$)/, rep)` for a literal, non-empty `pat`: `.` does not
   * match a newline and `.*` is greedy, so each match runs from an occurrence
   * of `pat` to the end of its line; the search resumes at that line end.
   */
  function ReplaceToLineEnd(s: string, pat: string, rep: string): string
    requires |pat| > 0
    decreases |s|
  {
    match IndexOf(s, pat)
    case None => s
    case Some(i) =>
      var j := NextFrom(s, i + |pat|, '\n');
      s[..i] + rep + ReplaceToLineEnd(s[j..], pat, rep)
  }

  /** `s` with a `;` appended unless its last character already is one (`s[-1, 1] != ';'`). */
  function Terminated(s: string): (r: string)
    ensures |s| <= |r| && r[..|s|] == s
    ensures |r| > 0 && r[|r| - 1] == ';'
    ensures |r| == |s| <==> (|s| > 0 && s[|s| - 1] == ';')
    ensures r == s || r == s + ";"
  {
    if |s| > 0 && s[|s| - 1] == ';' then s else s + ";"
  }

  /**
   * The new value of the attribute in set_attribute_property, given its
   * current value (None when the element has no such attribute).
   */
  function Merge(current: Option<string>, property: string, value: string): string
  {
    match current
    case None => Setting(property, value)
    case Some(s) =>
      if Contains(s, property) then ReplaceToLineEnd(s, property + ":", Setting(property, value))
      else Terminated(s) + Setting(property, value)
  }

  /** The quirk case: the value mentions `property` but never `property:`. */
  predicate MentionsWithoutColon(s: string, property: string)
  {
    Contains(s, property) && !Contains(s, property + ":")
  }

  /** A reader for style declarations: the text after the first `property:` up to the next `;` or the end. */
  function DeclaredValue(s: string, property: string): Option<string>
  {
    match IndexOf(s, property + ":")
    case None => None
    case Some(i) =>
      var start := i + |property| + 1;
      Some(s[start..NextFrom(s, start, ';')])
  }

  /**
   * The part of the current value a merge keeps in front of the new
   * setting: nothing for an absent attribute, the text before the first
   * `property:` when there is one, and otherwise the value with its `;`.
   */
  function Stem(current: Option<string>, property: string): string
  {
    match current
    case None => ""
    case Some(s) =>
      match IndexOf(s, property + ":")
      case Some(i) => s[..i]
      case None => Terminated(s)
  }

  /** An occurrence of `property:` is an occurrence of `property` followed by a colon. */
  lemma ColonOccurrence(s: string, property: string, k: int)
    ensures OccursAt(s, property + ":", k) <==>
      OccursAt(s, property, k) && k + |property| < |s| && s[k + |property|] == ':'
  {
    if 0 <= k && k + |property| < |s| {
      var w := s[k..k + |property| + 1];
      assert w[..|property|] == s[k..k + |property|];
      assert w[|property|] == s[k + |property|];
      assert w == s[k..k + |property|] + [s[k + |property|]];
    }
  }

  /** A text that lacks the first character of `pat` does not contain `pat`. */
  lemma AbsentFirstChar(u: string, pat: string)
    requires |pat| > 0 && pat[0] !in u
    ensures !Contains(u, pat)
  {
    forall k | 0 <= k <= |u| - |pat| ensures !OccursAt(u, pat, k) {
      assert u[k..k + |pat|][0] == u[k];
    }
  }

  /** A setting splits at its first `:` back into the property and the value with its `;`. */
  lemma SettingSplits(property: string, value: string)
    requires ':' !in property
    ensures IndexOf(Setting(property, value), ":") == Some(|property|)
    ensures Setting(property, value)[..|property|] == property
    ensures Setting(property, value)[|property| + 1..] == value + ";"
  {
    var t := Setting(property, value);
    assert OccursAt(t, ":", |property|) by { assert t[|property|..|property| + 1] == [':']; }
    forall k | 0 <= k < |property| ensures !OccursAt(t, ":", k) {
      assert t[k] == property[k];
      assert t[k..k + 1][0] == t[k];
    }
  }

  /**
   * Appending a setting after text `u` that holds no `property:` puts the
   * first `property:` of the result at the start of the setting.
   */
  lemma FirstOccurrenceAtJoin(u: string, property: string, value: string)
    requires ':' !in property
    requires !Contains(u, property + ":")
    ensures IndexOf(u + Setting(property, value), property + ":") == Some(|u|)
  {
    var pat, t := property + ":", u + Setting(property, value);
    assert t[|u|..|u| + |pat|] == pat;
    assert OccursAt(t, pat, |u|);
    forall k | 0 <= k < |u| ensures !OccursAt(t, pat, k) {
      if k + |pat| <= |u| {
        assert t[k..k + |pat|] == u[k..k + |pat|];
        assert !OccursAt(u, pat, k);
      } else if k + |pat| <= |t| {
        var d := k + |property| - |u|;
        assert 0 <= d < |property|;
        assert t[k + |property|] == property[d];
        assert t[k..k + |pat|][|property|] == t[k + |property|];
        assert pat[|property|] == ':';
      }
    }
  }

  /** When nothing after the first match is a newline, gsub replaces the whole tail once. */
  lemma ReplaceFinalLine(s: string, pat: string, rep: string, i: nat)
    requires |pat| > 0
    requires IndexOf(s, pat) == Some(i)
    requires forall k :: i + |pat| <= k < |s| ==> s[k] != '\n'
    ensures ReplaceToLineEnd(s, pat, rep) == s[..i] + rep
  {
    var j := NextFrom(s, i + |pat|, '\n');
    assert j == |s|;
    assert s[j..] == [];
    assert IndexOf([], pat) == None;
  }

  /**
   * Outside the quirk case, on a single-line value, the merge result is the
   * stem, which holds no `property:` and does not depend on the value,
   * followed by the setting.
   */
  lemma MergeSplit(current: Option<string>, property: string, value: string)
    requires current.Some? ==> '\n' !in current.value
    requires current.Some? ==> !MentionsWithoutColon(current.value, property)
    ensures Merge(current, property, value) == Stem(current, property) + Setting(property, value)
    ensures !Contains(Stem(current, property), property + ":")
  {
    var pat := property + ":";
    var u := Stem(current, property);
    match current
    case None =>
      assert u + Setting(property, value) == Setting(property, value);
    case Some(s) =>
      if Contains(s, property) {
        assert Contains(s, pat);
        var i := IndexOf(s, pat).value;
        ReplaceFinalLine(s, pat, Setting(property, value), i);
        forall k | 0 <= k <= |u| - |pat| ensures !OccursAt(u, pat, k) {
          assert !OccursAt(s, pat, k);
          assert u[k..k + |pat|] == s[k..k + |pat|];
        }
      } else {
        forall k | 0 <= k <= |s| - |pat| ensures !OccursAt(s, pat, k) {
          ColonOccurrence(s, property, k);
        }
        forall k | 0 <= k <= |u| - |pat| ensures !OccursAt(u, pat, k) {
          ColonOccurrence(u, property, k);
          if k + |property| <= |s| {
            assert !OccursAt(s, property, k);
            assert u[k..k + |property|] == s[k..k + |property|];
          }
        }
      }
  }

  /** Cutting a text before its first `pat` and putting `pat` back keeps that first occurrence. */
  lemma FirstOccurrenceAfterPrefix(s: string, pat: string, i: nat, rest: string)
    requires IndexOf(s, pat) == Some(i)
    ensures IndexOf(s[..i] + pat + rest, pat) == Some(i)
  {
    var t := s[..i] + pat + rest;
    var w := s[..i + |pat|];
    assert t[i..i + |pat|] == pat;
    assert OccursAt(t, pat, i);
    assert t[..i + |pat|] == w;
    forall k | 0 <= k < i ensures !OccursAt(t, pat, k) {
      assert !OccursAt(s, pat, k);
      assert t[k..k + |pat|] == w[k..k + |pat|] == s[k..k + |pat|];
    }
  }

  /**
   * After a terminated text free of `property`, the first `property:` is
   * the appended one: one straddling the join would need the final `;`
   * inside `property`.
   */
  lemma FirstOccurrenceAfterTerminated(s: string, property: string, rest: string)
    requires ';' !in property
    requires !Contains(s, property)
    ensures IndexOf(Terminated(s) + (property + ":") + rest, property + ":") == Some(|Terminated(s)|)
  {
    var pat, u := property + ":", Terminated(s);
    var t := u + pat + rest;
    assert t[|u|..|u| + |pat|] == pat;
    assert OccursAt(t, pat, |u|);
    assert u[..|s|] == s;
    forall k | 0 <= k < |u| ensures !OccursAt(t, pat, k) {
      if k + |pat| <= |u| {
        ColonOccurrence(u, property, k);
        if OccursAt(u, property, k) {
          assert u[k..k + |property|] == s[k..k + |property|];
          assert OccursAt(s, property, k);
        }
        assert t[k..k + |pat|] == u[k..k + |pat|];
      } else if k + |pat| <= |t| {
        var d := |u| - 1 - k;
        assert t[k..k + |pat|][d] == t[|u| - 1] == ';';
        assert d < |property| ==> pat[d] == property[d];
      }
    }
  }

  /** Adding the final `;` creates no occurrence of a pattern that does not end in `;`. */
  lemma TerminatedKeepsAbsent(s: string, pat: string)
    requires |pat| > 0 && pat[|pat| - 1] != ';'
    requires !Contains(s, pat)
    ensures !Contains(Terminated(s), pat)
  {
    var u := Terminated(s);
    forall k | 0 <= k <= |u| - |pat| ensures !OccursAt(u, pat, k) {
      if k + |pat| <= |s| {
        assert !OccursAt(s, pat, k);
        assert u[k..k + |pat|] == s[k..k + |pat|];
      } else {
        assert u[k..k + |pat|][|pat| - 1] == u[|u| - 1] == ';';
      }
    }
  }

  /**
   * Outside the quirk case, the first `property:` after the stem is the one
   * the new setting brings. An earlier one would have to straddle the join,
   * holding the stem's final `;` and ending in the setting's `:`, so the
   * property would have to hold both characters.
   */
  lemma FirstOccurrenceAfterStem(current: Option<string>, property: string, value: string)
    requires ';' !in property || ':' !in property
    requires current.Some? ==> !MentionsWithoutColon(current.value, property)
    ensures IndexOf(Stem(current, property) + Setting(property, value), property + ":") == Some(|Stem(current, property)|)
  {
    var pat := property + ":";
    assert Setting(property, value) == pat + (value + ";");
    match current
    case None =>
      assert Setting(property, value)[..|pat|] == pat;
    case Some(s) =>
      match IndexOf(s, pat)
      case Some(i) =>
        assert Stem(current, property) + Setting(property, value) == s[..i] + pat + (value + ";");
        FirstOccurrenceAfterPrefix(s, pat, i, value + ";");
      case None =>
        if ';' !in property {
          assert !Contains(s, property);
          assert Stem(current, property) + Setting(property, value) == Terminated(s) + pat + (value + ";");
          FirstOccurrenceAfterTerminated(s, property, value + ";");
        } else {
          TerminatedKeepsAbsent(s, pat);
          FirstOccurrenceAtJoin(Terminated(s), property, value);
        }
  }

  /** Absent attribute: it becomes exactly the setting. */
  lemma MergeAbsent(property: string, value: string)
    ensures Merge(None, property, value) == property + ":" + value + ";"
  {
  }

  /**
   * Present attribute without the property: the value is kept verbatim, a
   * `;` is added only when it does not already end in one, then the setting.
   */
  lemma MergeAppend(s: string, property: string, value: string)
    requires !Contains(s, property)
    ensures Merge(Some(s), property, value) == Terminated(s) + Setting(property, value)
    ensures Merge(Some(s), property, value)[..|s|] == s
    ensures |s| > 0 && s[|s| - 1] == ';' ==> Merge(Some(s), property, value) == s + Setting(property, value)
    ensures !(|s| > 0 && s[|s| - 1] == ';') ==> Merge(Some(s), property, value) == s + ";" + Setting(property, value)
  {
    assert (Terminated(s) + Setting(property, value))[..|s|] == Terminated(s)[..|s|];
  }

  /**
   * Present attribute holding `property:` on a single line: the greedy match
   * replaces everything from the first `property:` to the end, so the result
   * is the text before it followed by the setting.
   */
  lemma MergeReplace(s: string, property: string, value: string, i: nat)
    requires '\n' !in s
    requires IndexOf(s, property + ":") == Some(i)
    ensures Merge(Some(s), property, value) == s[..i] + Setting(property, value)
  {
    var pat := property + ":";
    assert s[i..i + |property|] == s[i..i + |pat|][..|property|];
    assert OccursAt(s, property, i);
    ReplaceFinalLine(s, pat, Setting(property, value), i);
  }

  /** The value mentions the property but never `property:`: it is left as it is, nothing appended. */
  lemma MergeMentionWithoutColon(s: string, property: string, value: string)
    requires MentionsWithoutColon(s, property)
    ensures Merge(Some(s), property, value) == s
  {
  }

  /** After text free of `property:`, a setting is read back as its value. */
  lemma DeclaredAtJoin(u: string, property: string, value: string)
    requires ';' !in value
    requires IndexOf(u + Setting(property, value), property + ":") == Some(|u|)
    ensures DeclaredValue(u + Setting(property, value), property) == Some(value)
  {
    var t := u + Setting(property, value);
    var start := |u| + |property| + 1;
    assert t[start..] == value + ";";
    forall k | start <= k < |t| - 1 ensures t[k] != ';' {
      assert t[k] == t[start..][k - start];
    }
    var j := NextFrom(t, start, ';');
    assert t[|t| - 1] == ';';
    assert j == |t| - 1;
    assert t[start..j] == value;
  }

  /**
   * Outside the quirk case, the merged declaration gives the property the
   * new value, read back by DeclaredValue.
   */
  lemma MergeDeclares(current: Option<string>, property: string, value: string)
    requires (';' !in property || ':' !in property) && ';' !in value
    requires current.Some? ==> '\n' !in current.value
    requires current.Some? ==> !MentionsWithoutColon(current.value, property)
    ensures DeclaredValue(Merge(current, property, value), property) == Some(value)
  {
    MergeSplit(current, property, value);
    FirstOccurrenceAfterStem(current, property, value);
    DeclaredAtJoin(Stem(current, property), property, value);
  }

  /**
   * A declaration that ends in a setting whose `property:` is the first one
   * has that whole setting replaced by a new one.
   */
  lemma MergeAtJoin(u: string, property: string, first: string, second: string)
    requires '\n' !in first
    requires IndexOf(u + Setting(property, first), property + ":") == Some(|u|)
    ensures Merge(Some(u + Setting(property, first)), property, second) == u + Setting(property, second)
  {
    var pat := property + ":";
    var t := u + Setting(property, first);
    assert t[|u|..|u| + |property|] == property;
    assert OccursAt(t, property, |u|);
    forall k | |u| + |pat| <= k < |t| ensures t[k] != '\n' {
      assert k == |t| - 1 || t[k] == first[k - |u| - |pat|];
    }
    ReplaceFinalLine(t, pat, Setting(property, second), |u|);
    assert t[..|u|] == u;
  }

  /**
   * The last of two settings of the same property wins: merging `first` and
   * then `second` gives what merging `second` alone gives, for a property
   * without `;` or without `:`, and a single-line value and first setting.
   */
  lemma MergeLastWins(current: Option<string>, property: string, first: string, second: string)
    requires (';' !in property || ':' !in property) && '\n' !in first
    requires current.Some? ==> '\n' !in current.value
    ensures Merge(Some(Merge(current, property, first)), property, second) == Merge(current, property, second)
  {
    if !(current.Some? && MentionsWithoutColon(current.value, property)) {
      MergeSplit(current, property, first);
      MergeSplit(current, property, second);
      FirstOccurrenceAfterStem(current, property, first);
      MergeAtJoin(Stem(current, property), property, first, second);
    }
  }

  /** Merging the same setting twice gives the same string as merging it once. */
  lemma MergeIdempotent(current: Option<string>, property: string, value: string)
    requires (';' !in property || ':' !in property) && '\n' !in value
    requires current.Some? ==> '\n' !in current.value
    ensures Merge(Some(Merge(current, property, value)), property, value) == Merge(current, property, value)
  {
    MergeLastWins(current, property, value, value);
  }

  /** Worked case: the greedy match drops the pairs after the one being set. */
  lemma MergeExampleGreedy(s: string)
    requires s == "a:1;b:2;c:3;"
    ensures Merge(Some(s), "b", "9") == "a:1;b:9;"
  {
    assert "b" + ":" == "b:";
    AbsentFirstChar("a:1;", "b:");
    FirstOccurrenceAtJoin("a:1;", "b", "2;c:3");
    assert s == "a:1;" + Setting("b", "2;c:3");
    MergeReplace(s, "b", "9", 4);
    assert s[..4] == "a:1;";
    assert "a:1;" + Setting("b", "9") == "a:1;b:9;";
  }

  /** Worked case: with or without a trailing `;`, the setting is appended after exactly one `;`. */
  lemma MergeExampleSeparator()
    ensures Merge(Some("a:1"), "display", "none") == "a:1;display:none;"
    ensures Merge(Some("a:1;"), "display", "none") == "a:1;display:none;"
  {
    AbsentFirstChar("a:1", "display");
    AbsentFirstChar("a:1;", "display");
    MergeAppend("a:1", "display", "none");
    MergeAppend("a:1;", "display", "none");
  }

  /** Worked case: a value that mentions `display` only as a value is left unchanged. */
  lemma MergeExampleMention()
    ensures Merge(Some("fill:display"), "display", "none") == "fill:display"
  {
    var f := "fill:display";
    assert f[5..12] == "display";
    assert OccursAt(f, "display", 5);
    assert "display" + ":" == "display:";
    forall k | 0 <= k <= |f| - 8 ensures !OccursAt(f, "display:", k) {
      assert f[k] in f[..5];
      assert f[k..k + 8][0] == f[k];
    }
    MergeMentionWithoutColon(f, "display", "none");
  }
}
