/** The JavaScript string built-ins the picker relies on: `trim`, `split`
    on a single character, `join`, and the default ordering used by
    `Array.prototype.sort`. Whitespace is the ASCII part of JavaScript's
    white-space and line-terminator classes. */
module Text {
  import opened Seqs

  type String = seq<char>

  /** Space, tab, line feed, vertical tab, form feed and carriage return:
      what `trim` removes and `\s` matches, restricted to ASCII. */
  predicate IsSpace(c: char)
  {
    c == ' ' || '\t' <= c <= '\r'
  }

  /** No whitespace at either end. */
  predicate IsTrimmed(s: String)
  {
    s == [] || (!IsSpace(s[0]) && !IsSpace(s[|s| - 1]))
  }

  /** String.prototype.trim. */
  function Trim(s: String): (r: String)
    ensures IsTrimmed(r)
    ensures |r| <= |s|
    ensures forall c :: c in r ==> c in s
    ensures IsTrimmed(s) ==> r == s
    ensures StripsEnds(s, r, IsSpace)
  {
    var t := DropWhile(s, IsSpace);
    var r := DropWhileEnd(t, IsSpace);
    StripsEndsOfDrop(s, IsSpace);
    assert r != [] ==> r[0] == t[0];
    assert forall c :: c in r ==> c in t;
    r
  }

  /** Leading whitespace does not survive `trim`. */
  lemma TrimSkipsLeadingSpace(c: char, s: String)
    requires IsSpace(c)
    ensures Trim([c] + s) == Trim(s)
  {
    assert ([c] + s)[1..] == s;
  }

  /** String.prototype.split with a one-character separator: the pieces
      between consecutive separators, always at least one. */
  function Split(s: String, sep: char): (r: seq<String>)
    ensures r != []
  {
    if s == [] then [[]]
    else
      var rest := Split(s[1..], sep);
      if s[0] == sep then [[]] + rest
      else [[s[0]] + rest[0]] + rest[1..]
  }

  /** One more piece than there are separators, and no piece holds one. */
  lemma {:induction false} SplitPieces(s: String, sep: char)
    ensures |Split(s, sep)| == multiset(s)[sep] + 1
    ensures forall i :: 0 <= i < |Split(s, sep)| ==> sep !in Split(s, sep)[i]
  {
    if s != [] {
      SplitPieces(s[1..], sep);
      assert s == [s[0]] + s[1..];
      var rest := Split(s[1..], sep);
      if s[0] != sep {
        assert forall c :: c in [s[0]] + rest[0] ==> c == s[0] || c in rest[0];
      }
    }
  }

  /** Array.prototype.join: the pieces with `sep` between neighbours. */
  function Join(xs: seq<String>, sep: String): (r: String)
    ensures xs == [] ==> r == []
    ensures |xs| == 1 ==> r == xs[0]
  {
    if xs == [] then []
    else if |xs| == 1 then xs[0]
    else xs[0] + sep + Join(xs[1..], sep)
  }

  /** Every character of a join comes from a piece or from the separator. */
  lemma {:induction false} JoinChars(xs: seq<String>, sep: String, ok: char -> bool)
    requires forall x :: x in xs ==> forall c :: c in x ==> ok(c)
    requires forall c :: c in sep ==> ok(c)
    ensures forall c :: c in Join(xs, sep) ==> ok(c)
  {
    if |xs| > 1 {
      assert xs[0] in xs;
      assert forall x :: x in xs[1..] ==> x in xs;
      JoinChars(xs[1..], sep, ok);
    } else if |xs| == 1 {
      assert xs[0] in xs;
    }
  }

  /** A join whose first piece is not empty starts with that piece's first character. */
  lemma JoinHead(xs: seq<String>, sep: String)
    requires xs != [] && xs[0] != []
    ensures Join(xs, sep) != [] && Join(xs, sep)[0] == xs[0][0]
  {
  }

  /** Appending a piece appends the separator and the piece. */
  lemma {:induction false} JoinSnoc(xs: seq<String>, y: String, sep: String)
    requires xs != []
    ensures Join(xs + [y], sep) == Join(xs, sep) + sep + y
  {
    if |xs| == 1 {
      assert (xs + [y])[1..] == [y];
    } else {
      JoinSnoc(xs[1..], y, sep);
      assert (xs + [y])[1..] == xs[1..] + [y];
    }
  }

  lemma JoinConsHead(c: char, x: String, rest: seq<String>, sep: String)
    ensures Join([[c] + x] + rest, sep) == [c] + Join([x] + rest, sep)
  {
    if rest != [] {
      assert ([[c] + x] + rest)[1..] == rest == ([x] + rest)[1..];
    }
  }

  /** Joining the pieces of a split with the same separator gives back the text. */
  lemma {:induction false} JoinSplit(s: String, sep: char)
    ensures Join(Split(s, sep), [sep]) == s
  {
    if s != [] {
      var rest := Split(s[1..], sep);
      JoinSplit(s[1..], sep);
      assert s == [s[0]] + s[1..];
      if s[0] == sep {
        var pieces := [[]] + rest;
        assert Split(s, sep) == pieces;
        assert pieces[1..] == rest;
        assert Join(pieces, [sep]) == [] + [sep] + Join(rest, [sep]);
      } else {
        assert Split(s, sep) == [[s[0]] + rest[0]] + rest[1..];
        JoinConsHead(s[0], rest[0], rest[1..], [sep]);
        assert [rest[0]] + rest[1..] == rest;
      }
    }
  }

  /** Splitting the join of separator-free pieces gives back the pieces. */
  lemma {:induction false} SplitJoin(xs: seq<String>, sep: char)
    requires xs != []
    requires forall i :: 0 <= i < |xs| ==> sep !in xs[i]
    ensures Split(Join(xs, [sep]), sep) == xs
  {
    if |xs| == 1 {
      SplitPlain(xs[0], [], sep);
      assert xs[0] + [] == xs[0];
    } else {
      var tail := Join(xs[1..], [sep]);
      var u := [sep] + tail;
      assert Join(xs, [sep]) == xs[0] + u;
      SplitJoin(xs[1..], sep);
      assert u[1..] == tail;
      assert Split(u, sep) == [[]] + xs[1..];
      SplitPlain(xs[0], u, sep);
      assert xs[0] + [] == xs[0];
      assert [xs[0]] + xs[1..] == xs;
    }
  }

  /** A separator-free head only lengthens the first piece. */
  lemma {:induction false} SplitPlain(x: String, t: String, sep: char)
    requires sep !in x
    ensures Split(x + t, sep) == [x + Split(t, sep)[0]] + Split(t, sep)[1..]
  {
    if x == [] {
      assert x + t == t;
      assert [] + Split(t, sep)[0] == Split(t, sep)[0];
      assert [Split(t, sep)[0]] + Split(t, sep)[1..] == Split(t, sep);
    } else {
      var st := Split(t, sep);
      SplitPlain(x[1..], t, sep);
      assert (x + t)[1..] == x[1..] + t;
      var rest := Split(x[1..] + t, sep);
      assert rest[0] == x[1..] + st[0] && rest[1..] == st[1..];
      assert [x[0]] + (x[1..] + st[0]) == x + st[0];
    }
  }

  /** The default order of Array.prototype.sort on strings: lexicographic
      by character code, a proper prefix first. */
  predicate Less(a: String, b: String)
  {
    if a == [] then b != []
    else if b == [] then false
    else a[0] < b[0] || (a[0] == b[0] && Less(a[1..], b[1..]))
  }

  /** `a` and `b` agree before position `k`, where `a` has the smaller character. */
  ghost predicate DiffersBelowAt(a: String, b: String, k: nat)
  {
    k < |a| && k < |b| && a[..k] == b[..k] && a[k] < b[k]
  }

  /** The order of `sort` stated directly: `a` comes first when it is a
      proper prefix of `b`, or when at the first position where the two
      differ `a` has the smaller character. */
  lemma {:induction false} LessIff(a: String, b: String)
    ensures Less(a, b) <==> (|a| < |b| && a == b[..|a|]) || exists k: nat :: DiffersBelowAt(a, b, k)
  {
    if a != [] && b != [] {
      if a[0] < b[0] {
        assert DiffersBelowAt(a, b, 0);
      } else if a[0] > b[0] {
        if |a| < |b| {
          assert b[..|a|][0] == b[0];
        }
      } else {
        LessIff(a[1..], b[1..]);
        LessIffPrefix(a, b);
        LessIffDiffers(a, b);
      }
    }
  }

  /** With equal first characters, being a proper prefix passes to the tails. */
  lemma LessIffPrefix(a: String, b: String)
    requires a != [] && b != [] && a[0] == b[0]
    ensures (|a| < |b| && a == b[..|a|]) <==> (|a[1..]| < |b[1..]| && a[1..] == b[1..][..|a[1..]|])
  {
    if |a| < |b| {
      assert b[..|a|] == [b[0]] + b[1..][..|a[1..]|];
      assert a == [a[0]] + a[1..];
    }
  }

  /** With equal first characters, a first difference moves one position along the tails. */
  lemma LessIffDiffers(a: String, b: String)
    requires a != [] && b != [] && a[0] == b[0]
    ensures (exists k: nat :: DiffersBelowAt(a, b, k)) <==> exists k: nat :: DiffersBelowAt(a[1..], b[1..], k)
  {
    if k: nat :| DiffersBelowAt(a, b, k) {
      assert k > 0;
      assert a[1..][..k - 1] == a[..k][1..] && b[1..][..k - 1] == b[..k][1..];
      assert DiffersBelowAt(a[1..], b[1..], k - 1);
    }
    if k: nat :| DiffersBelowAt(a[1..], b[1..], k) {
      assert a[..k + 1] == [a[0]] + a[1..][..k] && b[..k + 1] == [b[0]] + b[1..][..k];
      assert DiffersBelowAt(a, b, k + 1);
    }
  }

  lemma {:induction false} LessIrreflexive(a: String)
    ensures !Less(a, a)
  {
    if a != [] {
      LessIrreflexive(a[1..]);
    }
  }

  lemma {:induction false} LessTransitive(a: String, b: String, c: String)
    requires Less(a, b) && Less(b, c)
    ensures Less(a, c)
  {
    if a != [] && b != [] && c != [] && a[0] == b[0] == c[0] {
      LessTransitive(a[1..], b[1..], c[1..]);
    }
  }

  lemma {:induction false} LessTotal(a: String, b: String)
    ensures a == b || Less(a, b) || Less(b, a)
  {
    if a != [] && b != [] && a[0] == b[0] {
      LessTotal(a[1..], b[1..]);
      if a[1..] == b[1..] {
        assert a == [a[0]] + a[1..] && b == [b[0]] + b[1..];
      }
    }
  }

  lemma LessAsymmetric(a: String, b: String)
    ensures !(Less(a, b) && Less(b, a))
  {
    if Less(a, b) && Less(b, a) {
      LessTransitive(a, b, a);
      LessIrreflexive(a);
    }
  }

  /** Every element strictly below every later one: sorted and without duplicates. */
  predicate StrictlySorted(xs: seq<String>)
  {
    forall i, j :: 0 <= i < j < |xs| ==> Less(xs[i], xs[j])
  }

  /** Two different strictly sorted sequences disagree on some element. */
  lemma {:induction false} StrictlySortedWitness(a: seq<String>, b: seq<String>) returns (x: String)
    requires StrictlySorted(a) && StrictlySorted(b)
    requires a != b
    ensures (x in a) != (x in b)
  {
    if a == [] {
      x := b[0];
    } else if b == [] {
      x := a[0];
    } else if a[0] != b[0] {
      LessTotal(a[0], b[0]);
      if Less(a[0], b[0]) {
        x := a[0];
        forall j | 0 <= j < |b| ensures b[j] != x {
          if j > 0 { LessTransitive(x, b[0], b[j]); }
          LessIrreflexive(x);
        }
      } else {
        x := b[0];
        forall j | 0 <= j < |a| ensures a[j] != x {
          if j > 0 { LessTransitive(x, a[0], a[j]); }
          LessIrreflexive(x);
        }
      }
    } else {
      assert a == [a[0]] + a[1..] && b == [b[0]] + b[1..];
      x := StrictlySortedWitness(a[1..], b[1..]);
      if x in a[1..] {
        var i :| 1 <= i < |a| && a[i] == x;
        LessIrreflexive(x);
        assert x != b[0];
      } else {
        var i :| 1 <= i < |b| && b[i] == x;
        LessIrreflexive(x);
        assert x != a[0];
      }
    }
  }

  /** A strictly sorted sequence is determined by its elements. */
  lemma StrictlySortedUnique(a: seq<String>, b: seq<String>)
    requires StrictlySorted(a) && StrictlySorted(b)
    requires forall x :: x in a <==> x in b
    ensures a == b
  {
    if a != b {
      var x := StrictlySortedWitness(a, b);
      assert false;
    }
  }
}
