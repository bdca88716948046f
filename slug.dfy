/** `slugify` of rizzerv.js, which turns a restaurant name into the suffix
    of the card and thumbnail element ids: lower-case, whitespace runs to
    one dash, other non-word characters dropped, dash runs squeezed,
    dashes stripped from both ends. Letters are ASCII. */
module Slug {
  import opened Seqs
  import opened Text

  predicate IsDash(c: char)
  {
    c == '-'
  }

  /** The characters `[\w\-]` matches: ASCII letters, digits, underscore, dash. */
  predicate IsWordOrDash(c: char)
  {
    'a' <= c <= 'z' || 'A' <= c <= 'Z' || '0' <= c <= '9' || c == '_' || c == '-'
  }

  /** The characters a slug is made of: `[a-z0-9_-]`. */
  predicate IsSlugChar(c: char)
  {
    'a' <= c <= 'z' || '0' <= c <= '9' || c == '_' || c == '-'
  }

  /** No two dashes next to each other. */
  predicate NoDoubleDash(s: String)
  {
    forall i :: 0 <= i < |s| - 1 ==> !(s[i] == '-' && s[i + 1] == '-')
  }

  /** What `slugify` promises of its result. */
  predicate IsSlug(s: String)
  {
    (forall c :: c in s ==> IsSlugChar(c)) &&
    (s != [] ==> s[0] != '-' && s[|s| - 1] != '-') &&
    NoDoubleDash(s)
  }

  /** `\w` on ASCII: letters, digits and underscore. */
  predicate IsWordChar(c: char)
  {
    IsWordOrDash(c) && c != '-'
  }

  predicate IsNotDash(c: char)
  {
    c != '-'
  }

  /** The characters the whitespace replacement keeps as they are. */
  predicate IsKeptBySpaces(c: char)
  {
    c != '-' && !IsSpace(c)
  }

  function LowerChar(c: char): char
  {
    if 'A' <= c <= 'Z' then (c as int - 'A' as int + 'a' as int) as char else c
  }

  /** toLowerCase on ASCII letters. */
  function ToLower(s: String): (r: String)
    ensures |r| == |s|
    ensures forall c :: c in r ==> !('A' <= c <= 'Z')
    ensures (forall i :: 0 <= i < |s| ==> !('A' <= s[i] <= 'Z')) ==> r == s
    ensures forall i :: 0 <= i < |s| && !('A' <= s[i] <= 'Z') ==> r[i] == s[i]
    ensures forall i :: 0 <= i < |s| && 'A' <= s[i] <= 'Z' ==>
      'a' <= r[i] <= 'z' && r[i] as int - 'a' as int == s[i] as int - 'A' as int
  {
    seq(|s|, i requires 0 <= i < |s| => LowerChar(s[i]))
  }

  /** replace(/\s+/g, '-'): every run of whitespace becomes one dash. */
  function SpacesToDashes(s: String): (r: String)
    ensures forall c :: c in r ==> c == '-' || (c in s && !IsSpace(c))
    ensures Filter(r, IsNotDash) == Filter(s, IsKeptBySpaces)
    decreases |s|
  {
    if s == [] then []
    else if IsSpace(s[0]) then
      var rest := DropWhile(s[1..], IsSpace);
      assert forall c :: c in rest ==> c in s;
      var r := "-" + SpacesToDashes(rest);
      assert r[1..] == SpacesToDashes(rest);
      FilterSkipPrefix(s[1..], |s[1..]| - |rest|, IsKeptBySpaces);
      r
    else
      var r := [s[0]] + SpacesToDashes(s[1..]);
      assert r[1..] == SpacesToDashes(s[1..]);
      r
  }

  /** replace(/[^\w\-]+/g, ''): every character outside `[\w\-]` is dropped. */
  function KeepWordChars(s: String): (r: String)
    ensures forall c :: c in r ==> c in s && IsWordOrDash(c)
    ensures forall c :: c in s && IsWordOrDash(c) ==> c in r
    ensures IsSubsequence(r, s)
    ensures forall c :: multiset(r)[c] == if IsWordOrDash(c) then multiset(s)[c] else 0
  {
    FilterMultiset(s, IsWordOrDash);
    Filter(s, IsWordOrDash)
  }

  /** replace(/\-\-+/g, '-'): every run of two or more dashes becomes one
      dash (a lone dash is left as it is, which the same rule also gives). */
  function SqueezeDashes(s: String): (r: String)
    ensures NoDoubleDash(r)
    ensures forall c :: c in r ==> c in s
    ensures r == [] <==> s == []
    ensures s != [] ==> (r[0] == '-' <==> s[0] == '-')
    ensures Filter(r, IsNotDash) == Filter(s, IsNotDash)
    decreases |s|
  {
    if s == [] then []
    else
      var rest := if s[0] == '-' then DropWhile(s[1..], IsDash) else s[1..];
      var tail := SqueezeDashes(rest);
      SqueezeStep(s, rest, tail);
      [s[0]] + tail
  }

  /** One step of the squeeze: the first character of `s` followed by the
      squeeze of `rest`, which is `s` after its first character or, after a
      dash, after its whole leading run of dashes. */
  lemma SqueezeStep(s: String, rest: String, tail: String)
    requires s != []
    requires s[0] != '-' ==> rest == s[1..]
    requires s[0] == '-' ==> rest == DropWhile(s[1..], IsDash)
    requires rest != [] ==> (tail != [] && (tail[0] == '-' <==> rest[0] == '-'))
    requires NoDoubleDash(tail)
    requires forall c :: c in tail ==> c in rest
    requires Filter(tail, IsNotDash) == Filter(rest, IsNotDash)
    ensures NoDoubleDash([s[0]] + tail)
    ensures forall c :: c in [s[0]] + tail ==> c in s
    ensures Filter([s[0]] + tail, IsNotDash) == Filter(s, IsNotDash)
  {
    SqueezeStepDashes(s[0], tail);
    if s[0] == '-' {
      DashRun(s);
      SqueezeStepFilter(s, |s| - |rest|, tail);
    } else {
      SqueezeStepFilter(s, 1, tail);
    }
  }

  /** After a first character, DropWhile skips a run of dashes up to some index `k`. */
  lemma DashRun(s: String)
    requires s != []
    ensures var k := |s| - |DropWhile(s[1..], IsDash)|;
      1 <= k <= |s| && DropWhile(s[1..], IsDash) == s[k..] &&
      forall i :: 1 <= i < k ==> s[i] == '-'
  {
    var t := s[1..];
    var rest := DropWhile(t, IsDash);
    var k := |s| - |rest|;
    assert rest == t[|t| - |rest|..];
    assert t[|t| - |rest|..] == s[k..];
    forall i | 1 <= i < k ensures s[i] == '-' {
      assert s[i] == t[i - 1];
      assert IsDash(t[i - 1]);
    }
  }

  lemma SqueezeStepFilter(s: String, k: nat, tail: String)
    requires 1 <= k <= |s|
    requires forall i :: 1 <= i < k ==> s[i] == '-'
    requires forall c :: c in tail ==> c in s[k..]
    requires Filter(tail, IsNotDash) == Filter(s[k..], IsNotDash)
    ensures forall c :: c in [s[0]] + tail ==> c in s
    ensures Filter([s[0]] + tail, IsNotDash) == Filter(s, IsNotDash)
  {
    assert ([s[0]] + tail)[1..] == tail;
    FilterSkipPrefix(s[1..], k - 1, IsNotDash);
    assert s[1..][k - 1..] == s[k..];
    forall c | c in s[k..] ensures c in s {
      var j :| 0 <= j < |s| - k && s[k..][j] == c;
      assert s[k + j] == c;
    }
  }

  lemma SqueezeStepDashes(c: char, tail: String)
    requires NoDoubleDash(tail)
    requires c == '-' && tail != [] ==> tail[0] != '-'
    ensures NoDoubleDash([c] + tail)
  {
    var r := [c] + tail;
    forall i | 0 <= i < |r| - 1 ensures !(r[i] == '-' && r[i + 1] == '-') {
      if i > 0 {
        assert r[i] == tail[i - 1] && r[i + 1] == tail[i];
      }
    }
  }

  lemma NoDoubleDashSlice(s: String, lo: nat, hi: nat)
    requires lo <= hi <= |s| && NoDoubleDash(s)
    ensures NoDoubleDash(s[lo..hi])
  {
    forall i | 0 <= i < hi - lo - 1 ensures !(s[lo..hi][i] == '-' && s[lo..hi][i + 1] == '-') {
      assert s[lo..hi][i] == s[lo + i] && s[lo..hi][i + 1] == s[lo + i + 1];
    }
  }

  /** The first three replacements: only slug characters remain. */
  function Clean(name: String): (t: String)
    ensures forall c :: c in t ==> IsSlugChar(c)
    ensures Filter(t, IsNotDash) == Filter(ToLower(name), IsWordChar)
  {
    var lower := ToLower(name);
    var dashed := SpacesToDashes(lower);
    assert forall c :: c in dashed ==> !('A' <= c <= 'Z');
    FilterFilter(dashed, IsWordOrDash, IsNotDash, IsWordChar);
    FilterFilter(dashed, IsNotDash, IsWordChar, IsWordChar);
    FilterFilter(dashed, IsWordChar, IsNotDash, IsWordChar);
    FilterFilter(lower, IsKeptBySpaces, IsWordChar, IsWordChar);
    KeepWordChars(dashed)
  }

  /** A slice of slug characters without double dashes keeps both properties. */
  lemma SliceOfSlugChars(t: String, lo: nat, hi: nat)
    requires lo <= hi <= |t|
    requires NoDoubleDash(t) && forall c :: c in t ==> IsSlugChar(c)
    ensures NoDoubleDash(t[lo..hi]) && forall c :: c in t[lo..hi] ==> IsSlugChar(c)
  {
    NoDoubleDashSlice(t, lo, hi);
    forall c | c in t[lo..hi] ensures IsSlugChar(c) {
      var k :| 0 <= k < hi - lo && t[lo..hi][k] == c;
      assert t[lo + k] == c;
    }
  }

  /** replace(/^-+/, '') and replace(/-+$/, ''): dashes stripped from both ends. */
  function StripDashes(t: String): (r: String)
    requires NoDoubleDash(t) && forall c :: c in t ==> IsSlugChar(c)
    ensures IsSlug(r)
    ensures StripsEnds(t, r, IsDash)
  {
    StripsEndsOfDrop(t, IsDash);
    var u := DropWhile(t, IsDash);
    SliceOfSlugChars(t, |t| - |u|, |t|);
    var r := DropWhileEnd(u, IsDash);
    SliceOfSlugChars(u, 0, |r|);
    r
  }

  /** slugify: the whole chain of replacements. */
  function Slugify(name: String): (slug: String)
    ensures IsSlug(slug)
    ensures Filter(slug, IsNotDash) == Filter(ToLower(name), IsWordChar)
  {
    var squeezed := SqueezeDashes(Clean(name));
    var slug := StripDashes(squeezed);
    FilterStripsEnds(squeezed, slug, IsDash, IsNotDash);
    slug
  }

  lemma {:induction false} SpacesToDashesNoSpace(s: String)
    requires forall c :: c in s ==> !IsSpace(c)
    ensures SpacesToDashes(s) == s
  {
    if s != [] {
      assert s[0] in s;
      SpacesToDashesNoSpace(s[1..]);
      assert s == [s[0]] + s[1..];
    }
  }

  lemma {:induction false} SqueezeNoDoubleDash(s: String)
    requires NoDoubleDash(s)
    ensures SqueezeDashes(s) == s
  {
    if s != [] {
      NoDoubleDashSlice(s, 1, |s|);
      SqueezeNoDoubleDash(s[1..]);
      if s[0] == '-' {
        assert DropWhile(s[1..], IsDash) == s[1..];
      }
      assert s == [s[0]] + s[1..];
    }
  }

  /** Every slug is left unchanged by slugify. */
  lemma SlugifyIdempotentOnSlug(s: String)
    requires IsSlug(s)
    ensures Slugify(s) == s
  {
    CleanOfSlug(s);
    SqueezeNoDoubleDash(s);
    StripDashesOfSlug(s);
  }

  lemma CleanOfSlug(s: String)
    requires IsSlug(s)
    ensures Clean(s) == s
  {
    forall i | 0 <= i < |s| ensures IsWordOrDash(s[i]) && !('A' <= s[i] <= 'Z') {
      assert s[i] in s;
    }
    assert ToLower(s) == s;
    SpacesToDashesNoSpace(s);
    FilterAllPass(s, IsWordOrDash);
  }

  lemma StripDashesOfSlug(s: String)
    requires IsSlug(s)
    ensures StripDashes(s) == s
  {
    assert DropWhile(s, IsDash) == s;
    assert DropWhileEnd(s, IsDash) == s;
  }

  /** slugify is idempotent. */
  lemma SlugifyIdempotent(name: String)
    ensures Slugify(Slugify(name)) == Slugify(name)
  {
    SlugifyIdempotentOnSlug(Slugify(name));
  }

  /** The whitespace replacement, position by position: a character that is
      not whitespace is kept, a whitespace character that starts a run (at
      the start or after a non-space) becomes a dash, and the rest of the
      run is dropped. */
  lemma {:induction false} SpacesToDashesRuns(s: String)
    ensures SpacesToDashes(s) == CollapseRuns(s, IsSpace, '-')
    decreases |s|
  {
    if s != [] {
      CollapseRunsCons(s, IsSpace, '-');
      if IsSpace(s[0]) {
        SpacesToDashesRuns(DropWhile(s[1..], IsSpace));
      } else {
        SpacesToDashesRuns(s[1..]);
      }
    }
  }

  /** The dash squeeze, position by position: every character is kept
      except a dash that follows a dash. */
  lemma {:induction false} SqueezeDashesRuns(s: String)
    ensures SqueezeDashes(s) == CollapseRuns(s, IsDash, '-')
    decreases |s|
  {
    if s != [] {
      CollapseRunsCons(s, IsDash, '-');
      if s[0] == '-' {
        SqueezeDashesRuns(DropWhile(s[1..], IsDash));
      } else {
        SqueezeDashesRuns(s[1..]);
      }
    }
  }

  /** The first three replacements with the whitespace runs placed: each run
      of whitespace in the lower-cased name leaves one dash where it stood. */
  lemma CleanRuns(name: String)
    ensures Clean(name) == Filter(CollapseRuns(ToLower(name), IsSpace, '-'), IsWordOrDash)
  {
    SpacesToDashesRuns(ToLower(name));
  }

  /** The whole chain, position by position: whitespace runs become one
      dash, other non-word characters go, dash runs become one dash, and the
      dashes at the two ends are dropped. */
  lemma SlugifyRuns(name: String)
    ensures Slugify(name) ==
      DropWhileEnd(DropWhile(CollapseRuns(Clean(name), IsDash, '-'), IsDash), IsDash)
  {
    SqueezeDashesRuns(Clean(name));
  }

  /** The characters of a slug other than the dash: `[a-z0-9_]`. */
  predicate IsSlugWordChar(c: char)
  {
    IsSlugChar(c) && c != '-'
  }

  /** Words made of `[a-z0-9_]`, none empty. */
  predicate SlugWords(words: seq<String>)
  {
    forall w :: w in words ==> w != [] && forall c :: c in w ==> IsSlugWordChar(c)
  }

  /** Words joined by single spaces become the same words joined by dashes. */
  lemma SlugifyWords(words: seq<String>)
    requires SlugWords(words)
    ensures Slugify(Join(words, " ")) == Join(words, "-")
  {
    var text := Join(words, " ");
    var slug := Join(words, "-");
    JoinChars(words, " ", c => c == ' ' || IsSlugWordChar(c));
    forall i | 0 <= i < |text| ensures !('A' <= text[i] <= 'Z') {
      assert text[i] in text;
    }
    assert ToLower(text) == text;
    SpacesToDashesWords(words);
    JoinChars(words, "-", IsSlugChar);
    forall i | 0 <= i < |slug| ensures IsWordOrDash(slug[i]) {
      assert slug[i] in slug;
    }
    FilterAllPass(slug, IsWordOrDash);
    assert Clean(text) == slug;
    SlugWordsSlug(words);
    CleanOfSlug(slug);
    SlugifyIdempotentOnSlug(slug);
  }

  /** The whitespace replacement turns the single spaces between words into dashes. */
  lemma SpacesToDashesWords(words: seq<String>)
    requires SlugWords(words)
    ensures SpacesToDashes(Join(words, " ")) == Join(words, "-")
  {
    SpacesToDashesRuns(Join(words, " "));
    CollapseWords(words);
  }

  lemma {:induction false} CollapseWords(words: seq<String>)
    requires SlugWords(words)
    ensures CollapseRuns(Join(words, " "), IsSpace, '-') == Join(words, "-")
  {
    if |words| == 1 {
      var w := words[0];
      WordNoSpace(words, 0);
      CollapsePlainPrefix(w, [], IsSpace, '-');
      assert w + [] == w;
    } else if |words| > 1 {
      WordNoSpace(words, 0);
      WordNoSpace(words, 1);
      assert words[1..][0] == words[1];
      JoinHead(words[1..], " ");
      assert SlugWords(words[1..]) by {
        assert forall x :: x in words[1..] ==> x in words;
      }
      CollapseWords(words[1..]);
      CollapseWordsStep(words[0], Join(words[1..], " "), Join(words[1..], "-"));
    }
  }

  /** Word `i` holds no whitespace and is not empty. */
  lemma WordNoSpace(words: seq<String>, i: nat)
    requires SlugWords(words) && i < |words|
    ensures words[i] != [] && forall k :: 0 <= k < |words[i]| ==> !IsSpace(words[i][k])
  {
    assert words[i] in words;
    assert forall k :: 0 <= k < |words[i]| ==> words[i][k] in words[i];
  }

  /** A word, one space and a text that does not start with whitespace
      collapse to the word, one dash and the collapse of that text. */
  lemma CollapseWordsStep(w: String, rest: String, tail: String)
    requires forall k :: 0 <= k < |w| ==> !IsSpace(w[k])
    requires rest != [] && !IsSpace(rest[0])
    requires CollapseRuns(rest, IsSpace, '-') == tail
    ensures CollapseRuns(w + " " + rest, IsSpace, '-') == w + "-" + tail
  {
    assert DropWhile(rest, IsSpace) == rest;
    var u := " " + rest;
    assert u[1..] == rest;
    CollapseRunsCons(u, IsSpace, '-');
    CollapsePlainPrefix(w, u, IsSpace, '-');
    assert w + " " + rest == w + u;
  }

  /** Words of `[a-z0-9_]` joined by dashes form a slug. */
  lemma {:induction false} SlugWordsSlug(words: seq<String>)
    requires SlugWords(words)
    ensures IsSlug(Join(words, "-"))
  {
    JoinChars(words, "-", IsSlugChar);
    if |words| == 1 {
      var w := words[0];
      assert w in words;
      assert w[0] in w && w[|w| - 1] in w;
      NoDashNoDoubleDash(w);
    } else if |words| > 1 {
      var w := words[0];
      var rest := Join(words[1..], "-");
      assert w in words && words[1] in words && words[1..][0] == words[1];
      assert forall x :: x in words[1..] ==> x in words;
      assert w[0] in w && w[|w| - 1] in w;
      JoinHead(words[1..], "-");
      SlugWordsSlug(words[1..]);
      NoDashNoDoubleDash(w);
      NoDoubleDashConcat(w, "-");
      NoDoubleDashConcat(w + "-", rest);
      assert (w + "-" + rest)[0] == w[0];
    }
  }

  lemma NoDashNoDoubleDash(w: String)
    requires forall c :: c in w ==> c != '-'
    ensures NoDoubleDash(w)
  {
    forall i | 0 <= i < |w| - 1 ensures w[i] != '-' {
      assert w[i] in w;
    }
  }

  /** Two texts without double dashes that do not both have a dash where they meet. */
  lemma NoDoubleDashConcat(x: String, y: String)
    requires NoDoubleDash(x) && NoDoubleDash(y)
    requires x == [] || y == [] || x[|x| - 1] != '-' || y[0] != '-'
    ensures NoDoubleDash(x + y)
  {
    var r := x + y;
    forall i | 0 <= i < |r| - 1 ensures !(r[i] == '-' && r[i + 1] == '-') {
      if i + 1 < |x| {
        assert r[i] == x[i] && r[i + 1] == x[i + 1];
      } else if i >= |x| {
        assert r[i] == y[i - |x|] && r[i + 1] == y[i + 1 - |x|];
      }
    }
  }
}
