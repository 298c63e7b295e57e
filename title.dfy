/**
 * `getTitleAttribute`: the check's URL shown without its scheme, without
 * `www.` and without a trailing slash.
 */
module Title {
  import opened Sequences

  /** `pat` occurs in `s` at position `i`. */
  predicate OccursAt(pat: string, s: string, i: nat)
  {
    i + |pat| <= |s| && s[i..i + |pat|] == pat
  }

  /** `pat` occurs somewhere in `s`. */
  ghost predicate Occurs(pat: string, s: string)
  {
    exists i: nat :: OccursAt(pat, s, i)
  }

  /** An occurrence in the tail of `s` is an occurrence in `s`, one place further on. */
  lemma OccursTail(pat: string, s: string)
    requires |s| > 0 && Occurs(pat, s[1..])
    ensures Occurs(pat, s)
  {
    var i: nat :| OccursAt(pat, s[1..], i);
    assert s[1..][i..i + |pat|] == s[i + 1..i + 1 + |pat|];
    assert OccursAt(pat, s, i + 1);
  }

  /** A pattern whose first character is absent from `s` does not occur in it. */
  lemma AbsentFirstChar(pat: string, s: string)
    requires pat != [] && pat[0] !in s
    ensures !Occurs(pat, s)
  {
    forall i: nat | i + |pat| <= |s| ensures !OccursAt(pat, s, i) {
      assert s[i..i + |pat|][0] == s[i] && s[i] in s;
    }
  }

  /**
   * `str_replace(pat, '', s)`: deletes every occurrence of `pat`, scanning left
   * to right and never re-reading what it has passed. An empty `pat` deletes nothing.
   */
  function RemoveAll(s: string, pat: string): (r: string)
    ensures |r| <= |s|
    decreases |s|
  {
    if pat == [] || |s| < |pat| then s
    else if s[..|pat|] == pat then RemoveAll(s[|pat|..], pat)
    else [s[0]] + RemoveAll(s[1..], pat)
  }

  /** Deleting a non-empty pattern changes the text exactly when the pattern occurs in it. */
  lemma {:induction false} RemoveAllChanges(s: string, pat: string)
    requires pat != []
    ensures RemoveAll(s, pat) == s <==> !Occurs(pat, s)
    decreases |s|
  {
    if Occurs(pat, s) {
      RemoveAllShrinks(s, pat);
    } else {
      RemoveAllKeeps(s, pat);
    }
  }

  lemma {:induction false} RemoveAllKeeps(s: string, pat: string)
    requires pat != [] && !Occurs(pat, s)
    ensures RemoveAll(s, pat) == s
    decreases |s|
  {
    if |s| >= |pat| {
      assert !OccursAt(pat, s, 0);
      assert s[0..0 + |pat|] == s[..|pat|];
      if Occurs(pat, s[1..]) { OccursTail(pat, s); }
      RemoveAllKeeps(s[1..], pat);
      assert [s[0]] + s[1..] == s;
    }
  }

  lemma {:induction false} RemoveAllShrinks(s: string, pat: string)
    requires pat != [] && Occurs(pat, s)
    ensures |RemoveAll(s, pat)| < |s|
    decreases |s|
  {
    var i: nat :| OccursAt(pat, s, i);
    if s[..|pat|] != pat {
      assert i > 0;
      assert s[1..][i - 1..i - 1 + |pat|] == s[i..i + |pat|];
      assert OccursAt(pat, s[1..], i - 1);
      RemoveAllShrinks(s[1..], pat);
    }
  }

  /** An occurrence in the tail of `s` is an occurrence in `s` one place further on, and back. */
  lemma OccursAtTail(pat: string, s: string, j: nat)
    requires |s| > 0
    ensures OccursAt(pat, s[1..], j) <==> OccursAt(pat, s, j + 1)
  {
    if j + 1 + |pat| <= |s| {
      assert s[1..][j..j + |pat|] == s[j + 1..j + 1 + |pat|];
    }
  }

  /** Where `pat` does not start the text, its first character is kept. */
  lemma RemoveAllKeepsHead(s: string, pat: string)
    requires pat != [] && |s| >= |pat| && !OccursAt(pat, s, 0)
    ensures RemoveAll(s, pat) == [s[0]] + RemoveAll(s[1..], pat)
  {
    assert s[..|pat|] == s[0..0 + |pat|];
  }

  /**
   * Up to the first occurrence of `pat` the text is kept as it is; the
   * occurrence is deleted and the deletion goes on after it.
   */
  lemma {:induction false} RemoveAllFirstOccurrence(s: string, pat: string, i: nat)
    requires pat != [] && OccursAt(pat, s, i)
    requires forall j: nat :: j < i ==> !OccursAt(pat, s, j)
    ensures RemoveAll(s, pat) == s[..i] + RemoveAll(s[i + |pat|..], pat)
    decreases i
  {
    if i == 0 {
      assert s[..|pat|] == s[0..0 + |pat|];
    } else {
      var t, rest := s[1..], s[i + |pat|..];
      assert RemoveAll(s, pat) == [s[0]] + RemoveAll(t, pat) by {
        assert !OccursAt(pat, s, 0);
        RemoveAllKeepsHead(s, pat);
      }
      assert RemoveAll(t, pat) == t[..i - 1] + RemoveAll(rest, pat) by {
        OccursAtTail(pat, s, i - 1);
        forall j: nat | j < i - 1 ensures !OccursAt(pat, t, j) {
          OccursAtTail(pat, s, j);
        }
        RemoveAllFirstOccurrence(t, pat, i - 1);
        assert t[i - 1 + |pat|..] == rest;
      }
      assert [s[0]] + t[..i - 1] == s[..i];
    }
  }

  /** The deletion does not rescan its output: removing "ab" from "aabb" leaves "ab". */
  lemma RemoveAllSinglePass()
    ensures RemoveAll("aabb", "ab") == "ab"
  {
    var s, pat := "aabb", "ab";
    assert s[1..3] == pat;
    assert s[0..2][1] != pat[1];
    RemoveAllFirstOccurrence(s, pat, 1);
    assert s[..1] == "a" && s[3..] == "b";
  }

  /** Deletes trailing copies of `c`. */
  function TrimEnd(s: string, c: char): (r: string)
    ensures |r| <= |s| && r == s[..|r|]
    ensures r == [] || Last(r) != c
    ensures forall i :: |r| <= i < |s| ==> s[i] == c
  {
    if s != [] && Last(s) == c then TrimEnd(DropLast(s), c) else s
  }

  /**
   * `str_finish(s, c)`, Laravel's helper that caps a string with a single
   * instance of `c`.
   */
  function Finish(s: string, c: char): (r: string)
    ensures |r| > 0 && Last(r) == c
    ensures (s == [] || Last(s) != c) ==> r == s + [c]
  {
    TrimEnd(s, c) + [c]
  }

  /** The URL without `http://`, `https://` and `www.`, deleted in that order. */
  function Stripped(url: string): (r: string)
    ensures |r| <= |url|
  {
    RemoveAll(RemoveAll(RemoveAll(url, "http://"), "https://"), "www.")
  }

  /**
   * The title is the stripped URL up to its trailing slashes: a prefix of it,
   * followed there by slashes only, and not ending in a slash itself.
   */
  function TitleOf(url: string): (r: string)
    ensures var s := Stripped(url);
      && |r| <= |s| && r == s[..|r|]
      && (forall i :: |r| <= i < |s| ==> s[i] == '/')
      && (r == [] || Last(r) != '/')
  {
    var capped := Finish(Stripped(url), '/');
    capped[..|capped| - 1]
  }

  /** A stripped URL without a trailing slash is the title itself: the cap is added and dropped again. */
  lemma TitleKeepsUnslashed(url: string)
    requires Stripped(url) == [] || Last(Stripped(url)) != '/'
    ensures TitleOf(url) == Stripped(url)
  {
  }

  /** A text that differs from `pat` at one of its positions does not start with `pat`. */
  lemma MismatchAt(pat: string, s: string, k: nat)
    requires k < |pat| <= |s| && s[k] != pat[k]
    ensures !OccursAt(pat, s, 0)
  {
    assert s[0..|pat|][k] == s[k];
  }

  lemma ExampleNoHttp()
    ensures RemoveAll("https://www.example.com/", "http://") == "https://www.example.com/"
  {
    var u := "https://www.example.com/";
    MismatchAt("http://", u, 4);
    AbsentFirstChar("http://", u[1..]);
    RemoveAllKeeps(u[1..], "http://");
    assert [u[0]] + u[1..] == u;
  }

  lemma ExampleNoHttps()
    ensures RemoveAll("https://www.example.com/", "https://") == "www.example.com/"
  {
    var u, v := "https://www.example.com/", "www.example.com/";
    assert u[..8] == "https://" && u[8..] == v;
    AbsentFirstChar("https://", v);
    RemoveAllKeeps(v, "https://");
  }

  lemma ExampleNoWww()
    ensures RemoveAll("www.example.com/", "www.") == "example.com/"
  {
    var v, w := "www.example.com/", "example.com/";
    assert v[..4] == "www." && v[4..] == w;
    AbsentFirstChar("www.", w);
    RemoveAllKeeps(w, "www.");
  }

  lemma TitleExample()
    ensures TitleOf("https://www.example.com/") == "example.com"
  {
    ExampleNoHttp();
    ExampleNoHttps();
    ExampleNoWww();
    var w := "example.com/";
    assert Stripped("https://www.example.com/") == w;
    assert TrimEnd(DropLast(w), '/') == DropLast(w);
    assert DropLast(w) == "example.com";
  }
}
