/**
  The filename rename engine of PhotoNode: a tag is written into a photo's
  file name as the marker `@` followed by the tag's name, placed just before
  the extension, and removed again by cutting that token out.  Both
  directions are pure string surgery on the current name, done with
  `indexOf` / `lastIndexOf` arithmetic.

  Beside the two operations this module gives the structured view of an
  engine-built name, `Encode(stem, tags, ext) = stem + "@t1" + ... + "@tn" + ext`,
  and proves what adding and deleting do to it.
*/
module RenameEngine {
  import opened JavaStrings

  /** PhotoNode.PREFIX, the character that introduces every tag in a file name. */
  const Marker: char := '@'

  /** The token a tag contributes to a file name. */
  function Token(tag: string): string
  {
    [Marker] + tag
  }

  /** The name before its last dot. */
  function Stem(name: string): string
    requires '.' in name
  {
    name[..LastIndexOfChar(name, '.')]
  }

  /** The name from its last dot on: the extension, dot included. */
  function Extension(name: string): (r: string)
    requires '.' in name
    ensures |r| >= 1 && r[0] == '.' && '.' !in r[1..]
    ensures Stem(name) + r == name
  {
    var d := LastIndexOfChar(name, '.');
    var r := name[d..];
    assert forall i :: 1 <= i < |r| ==> r[i] == name[d + i];
    r
  }

  // ---------------------------------------------------------------------
  // Adding a tag

  /**
    addTagToName throws only when it has to cut at the last dot and the
    name has none.
  */
  predicate AddDefined(name: string, tag: string)
  {
    Contains(name, Token(tag)) || '.' in name
  }

  /**
    PhotoNode.addTagToName: a no-op when the token `@tag` already occurs
    anywhere in the name; otherwise the token goes between the stem and the
    given suffix (the extension of the photo's file).
  */
  function AddTagToName(name: string, tag: string, suffix: string): (r: string)
    requires AddDefined(name, tag)
    ensures Contains(name, Token(tag)) ==> r == name
    ensures !Contains(name, Token(tag)) ==> r == Stem(name) + Token(tag) + suffix
    ensures Contains(r, Token(tag))
    ensures '.' in name && '.' in suffix ==> '.' in r
  {
    if Contains(name, Token(tag)) then name
    else
      var r := name[..LastIndexOfChar(name, '.')] + Token(tag) + suffix;
      assert IsAt(r, Token(tag), |Stem(name)|);
      assert '.' in suffix ==> '.' in r by {
        if '.' in suffix {
          var k :| 0 <= k < |suffix| && suffix[k] == '.';
          assert r[|Stem(name)| + |Token(tag)| + k] == '.';
        }
      }
      r
  }

  // ---------------------------------------------------------------------
  // Deleting a tag

  /**
    The two cut points of deleteTagFromName: the kept text is
    `name[..cut.0] + name[cut.1..]`.  The start is one before the first
    occurrence of the tag at or after the first `@` (or just past the last
    dot when there is no `@`); the end is the next `@` after that, or the
    last dot when none follows.
  */
  function DeleteCut(name: string, tag: string): (int, int)
  {
    var lastDot := LastIndexOfChar(name, '.');
    var firstMarker := IndexOfChar(name, Marker, 0);
    var start := if firstMarker != -1 then IndexOf(name, tag, firstMarker) else lastDot + 1;
    // indexOf(ch, from) treats a negative `from` as 0
    var next := IndexOfChar(name, Marker, if start < 0 then 0 else start);
    var end := if next != -1 then next else lastDot;
    (start - 1, end)
  }

  /** deleteTagFromName throws unless both `substring` calls get indices inside the name. */
  predicate DeleteDefined(name: string, tag: string)
  {
    !Contains(name, tag) || (0 <= DeleteCut(name, tag).0 <= |name| && 0 <= DeleteCut(name, tag).1 <= |name|)
  }

  /**
    PhotoNode.deleteTagFromName.  A name in which the tag text does not
    occur comes back unchanged, and so does a name without any `@`: the cut
    and the rejoin meet at the last dot.
  */
  function DeleteTagFromName(name: string, tag: string): (r: string)
    requires DeleteDefined(name, tag)
    ensures !Contains(name, tag) ==> r == name
    ensures Marker !in name ==> r == name
  {
    ContainsIndexOf(name, tag);
    if IndexOf(name, tag, 0) != -1 then
      var (a, b) := DeleteCut(name, tag);
      var r := name[..a] + name[b..];
      assert Marker !in name ==> r == name by {
        if Marker !in name {
          IndexOfCharNone(name, Marker, 0);
          var start := LastIndexOfChar(name, '.') + 1;
          IndexOfCharNone(name, Marker, start);
          assert a + 1 == b + 1 == start;
        }
      }
      r
    else name
  }

  // ---------------------------------------------------------------------
  // Cutting one token

  /**
    The core of every deletion proof.  In `pre + "@" + t + post`, when every
    occurrence of `t` inside `pre` comes before the first marker and `post`
    either opens with a marker or is a bare extension, deleting `t` cuts
    out exactly the token `@t`.
  */
  lemma CutToken(pre: string, t: string, post: string)
    requires t != [] && Marker !in t && '.' !in t
    requires forall q, k :: IsAt(pre, t, q) && 0 <= k <= q && k < |pre| ==> pre[k] != Marker
    requires (|post| > 0 && post[0] == Marker)
          || (Marker !in post && |post| >= 1 && post[0] == '.' && '.' !in post[1..])
    ensures DeleteDefined(pre + [Marker] + t + post, t)
    ensures DeleteTagFromName(pre + [Marker] + t + post, t) == pre + post
  {
    var m := pre + [Marker] + t + post;
    var e := |pre| + 1 + |t|;
    CutStart(pre, t, post);
    var next := IndexOfChar(m, Marker, |pre| + 1);
    if |post| > 0 && post[0] == Marker {
      CutEndMarker(pre, t, post);
      assert next == e;
    } else {
      CutEndDot(pre, t, post);
      assert next == -1 && LastIndexOfChar(m, '.') == e;
    }
    assert DeleteCut(m, t) == (|pre|, e);
    ContainsIndexOf(m, t);
    assert m[..|pre|] == pre;
    assert m[e..] == post;
  }

  /** The cut starts at the inserted marker. */
  lemma CutStart(pre: string, t: string, post: string)
    requires t != [] && Marker !in t
    requires forall q, k :: IsAt(pre, t, q) && 0 <= k <= q && k < |pre| ==> pre[k] != Marker
    ensures var m := pre + [Marker] + t + post;
      var f := IndexOfChar(m, Marker, 0);
      0 <= f <= |pre| && IndexOf(m, t, f) == |pre| + 1
  {
    var m := pre + [Marker] + t + post;
    var p := |pre| + 1;
    assert m[|pre|] == Marker;
    var f := IndexOfChar(m, Marker, 0);
    assert f < |pre| ==> pre[f] == Marker;
    assert IsAt(m, t, p) by { assert m[p..p + |t|] == t; }
    forall q | f <= q < p
      ensures !IsAt(m, t, q)
    {
      if IsAt(m, t, q) {
        assert m == pre + [Marker] + (t + post);
        OccurrenceSplit(pre, Marker, t + post, t, q);
      }
    }
    IndexOfAt(m, t, f, p);
  }

  /** The cut ends where `post` begins: at its marker, */
  lemma CutEndMarker(pre: string, t: string, post: string)
    requires Marker !in t && |post| > 0 && post[0] == Marker
    ensures IndexOfChar(pre + [Marker] + t + post, Marker, |pre| + 1) == |pre| + 1 + |t|
  {
    var m := pre + [Marker] + t + post;
    TagAvoids(pre, t, post, Marker);
    assert m[|pre| + 1 + |t|] == Marker;
    IndexOfCharAt(m, Marker, |pre| + 1, |pre| + 1 + |t|);
  }

  /** or, when `post` is a bare extension, at its dot. */
  lemma CutEndDot(pre: string, t: string, post: string)
    requires Marker !in t && Marker !in post && |post| >= 1 && post[0] == '.' && '.' !in post[1..]
    ensures IndexOfChar(pre + [Marker] + t + post, Marker, |pre| + 1) == -1
    ensures LastIndexOfChar(pre + [Marker] + t + post, '.') == |pre| + 1 + |t|
  {
    var m := pre + [Marker] + t + post;
    TagAvoids(pre, t, post, Marker);
    PostAvoids(pre, t, post);
    IndexOfCharNone(m, Marker, |pre| + 1);
    LastIndexOfCharAt(m, '.', |pre| + 1 + |t|);
  }

  lemma TagAvoids(pre: string, t: string, post: string, c: char)
    requires c !in t
    ensures var m := pre + [Marker] + t + post;
      forall k :: |pre| + 1 <= k < |pre| + 1 + |t| ==> m[k] != c
  {
    var m := pre + [Marker] + t + post;
    assert forall k :: |pre| + 1 <= k < |pre| + 1 + |t| ==> m[k] == t[k - |pre| - 1];
  }

  lemma PostAvoids(pre: string, t: string, post: string)
    requires Marker !in post && |post| >= 1 && '.' !in post[1..]
    ensures var m := pre + [Marker] + t + post;
      (forall k :: |pre| + 1 + |t| <= k < |m| ==> m[k] != Marker)
      && (forall k :: |pre| + 1 + |t| < k < |m| ==> m[k] != '.')
  {
    var m := pre + [Marker] + t + post;
    var e := |pre| + 1 + |t|;
    assert forall k :: e <= k < |m| ==> m[k] == post[k - e];
    assert forall k :: e < k < |m| ==> m[k] == post[1..][k - e - 1];
  }

  // ---------------------------------------------------------------------
  // The round trip on an arbitrary name

  /**
    Adding a fresh tag and deleting it again restores the name, when the
    tag is a plain word (no `@`, no dot) that occurs nowhere in the name and
    the extension carries no `@`.
  */
  lemma RoundTrip(n: string, t: string)
    requires '.' in n && t != [] && Marker !in t && '.' !in t
    requires !Contains(n, t) && Marker !in Extension(n)
    ensures AddDefined(n, t)
    ensures DeleteDefined(AddTagToName(n, t, Extension(n)), t)
    ensures DeleteTagFromName(AddTagToName(n, t, Extension(n)), t) == n
  {
    var stem, ext := Stem(n), Extension(n);
    assert !Contains(n, Token(t)) by {
      if Contains(n, Token(t)) {
        var q :| 0 <= q <= |n| - |Token(t)| && IsAt(n, Token(t), q);
        assert n[q + 1..q + 1 + |t|] == Token(t)[1..];
        assert IsAt(n, t, q + 1);
      }
    }
    assert AddTagToName(n, t, ext) == stem + [Marker] + t + ext;
    forall q | IsAt(stem, t, q)
      ensures false
    {
      assert stem == n[0..|stem|];
      OccurrenceWiden(n, 0, |stem|, t, q);
    }
    CutToken(stem, t, ext);
  }

  // ---------------------------------------------------------------------
  // Engine-built names

  /** The tokens of `tags`, in the order they were added. */
  function Tokens(tags: seq<string>): string
  {
    if tags == [] then [] else Tokens(tags[..|tags| - 1]) + Token(tags[|tags| - 1])
  }

  /** The file name the engine builds from a stem, the tags in order, and the extension. */
  function Encode(stem: string, tags: seq<string>, ext: string): string
  {
    stem + Tokens(tags) + ext
  }

  /** A tag the engine can carry: non-empty, without the marker and without a dot. */
  predicate PlainTag(t: string)
  {
    t != [] && Marker !in t && '.' !in t
  }

  /** An extension: a dot, then no further dot and no marker. */
  predicate PlainExtension(ext: string)
  {
    |ext| >= 1 && ext[0] == '.' && '.' !in ext[1..] && Marker !in ext
  }

  /** The parts of an engine-built name. */
  predicate WellFormed(stem: string, tags: seq<string>, ext: string)
  {
    Marker !in stem && (forall i :: 0 <= i < |tags| ==> PlainTag(tags[i])) && PlainExtension(ext)
  }

  lemma {:induction false} TokensAppend(xs: seq<string>, ys: seq<string>)
    ensures Tokens(xs + ys) == Tokens(xs) + Tokens(ys)
    decreases |ys|
  {
    if ys == [] {
      assert xs + ys == xs;
    } else {
      var zs := ys[..|ys| - 1];
      assert (xs + ys)[..|xs + ys| - 1] == xs + zs;
      TokensAppend(xs, zs);
    }
  }

  lemma TokensStart(xs: seq<string>)
    requires xs != []
    ensures |Tokens(xs)| > 0 && Tokens(xs)[0] == Marker
  {
    TokensAppend([xs[0]], xs[1..]);
    assert [xs[0]] + xs[1..] == xs;
    assert Tokens([xs[0]]) == Tokens([]) + Token(xs[0]);
  }

  /** The tokens hold no dot when the tags hold none. */
  lemma {:induction false} TokensNoDot(xs: seq<string>)
    requires forall i :: 0 <= i < |xs| ==> '.' !in xs[i]
    ensures '.' !in Tokens(xs)
    decreases |xs|
  {
    if xs != [] {
      TokensNoDot(xs[..|xs| - 1]);
    }
  }

  /**
    A text free of the marker that occurs in no tag occurs nowhere in the
    tokens: every occurrence would have to straddle a marker.
  */
  lemma {:induction false} TokensAvoid(xs: seq<string>, t: string)
    requires t != [] && Marker !in t
    requires forall j :: 0 <= j < |xs| ==> !Contains(xs[j], t)
    ensures forall q :: !IsAt(Tokens(xs), t, q)
    decreases |xs|
  {
    if xs != [] {
      var init, last := xs[..|xs| - 1], xs[|xs| - 1];
      forall q | IsAt(Tokens(xs), t, q)
        ensures false
      {
        assert Tokens(xs) == Tokens(init) + [Marker] + last;
        assert !Contains(last, t);
        TokensAvoid(init, t);
        OccurrenceSplit(Tokens(init), Marker, last, t, q);
      }
    }
  }

  lemma EncodedLastDot(stem: string, tags: seq<string>, ext: string)
    requires PlainExtension(ext)
    ensures '.' in Encode(stem, tags, ext)
    ensures LastIndexOfChar(Encode(stem, tags, ext), '.') == |stem| + |Tokens(tags)|
    ensures Stem(Encode(stem, tags, ext)) == stem + Tokens(tags)
  {
    var n := Encode(stem, tags, ext);
    var p := |stem| + |Tokens(tags)|;
    assert forall i :: p < i < |n| ==> n[i] == ext[1..][i - p - 1];
    LastIndexOfCharAt(n, '.', p);
  }

  /**
    Adding a tag to an engine-built name either leaves it alone (its token
    is already there) or yields the engine-built name with the tag appended
    to the list: the marker-and-name goes right before the extension.
  */
  lemma AddToEncoded(stem: string, tags: seq<string>, ext: string, t: string)
    requires WellFormed(stem, tags, ext) && PlainTag(t)
    ensures AddDefined(Encode(stem, tags, ext), t)
    ensures AddTagToName(Encode(stem, tags, ext), t, ext)
         == if Contains(Encode(stem, tags, ext), Token(t)) then Encode(stem, tags, ext)
            else Encode(stem, tags + [t], ext)
  {
    var n := Encode(stem, tags, ext);
    EncodedLastDot(stem, tags, ext);
    if !Contains(n, Token(t)) {
      assert (tags + [t])[..|tags|] == tags;
      assert Tokens(tags + [t]) == Tokens(tags) + Token(t);
      calc {
        AddTagToName(n, t, ext);
        Stem(n) + Token(t) + ext;
        stem + Tokens(tags) + Token(t) + ext;
        stem + (Tokens(tags) + Token(t)) + ext;
        Encode(stem, tags + [t], ext);
      }
    }
  }

  /**
    Deleting the i-th tag from an engine-built name removes exactly its
    token, provided no earlier tag contains the deleted tag's text (an
    earlier `beach` would capture a deletion of `be`).
  */
  lemma DeleteFromEncoded(stem: string, tags: seq<string>, ext: string, i: nat)
    requires WellFormed(stem, tags, ext) && i < |tags|
    requires forall j :: 0 <= j < i ==> !Contains(tags[j], tags[i])
    ensures DeleteDefined(Encode(stem, tags, ext), tags[i])
    ensures DeleteTagFromName(Encode(stem, tags, ext), tags[i])
         == Encode(stem, tags[..i] + tags[i + 1..], ext)
  {
    var t := tags[i];
    var a, b := Tokens(tags[..i]), Tokens(tags[i + 1..]);
    assert PlainTag(t);
    TokensAround(tags, i);
    assert forall j :: 0 <= j < i ==> tags[..i][j] == tags[j];
    EarlierTokensAvoid(stem, tags[..i], t);
    if i + 1 < |tags| {
      TokensStart(tags[i + 1..]);
    } else {
      assert b == [];
    }
    EncodeAround(stem, a, t, b, ext);
    CutToken(stem + a, t, b + ext);
  }

  lemma EncodeAround(stem: string, a: string, t: string, b: string, ext: string)
    ensures stem + (a + [Marker] + t + b) + ext == (stem + a) + [Marker] + t + (b + ext)
    ensures stem + (a + b) + ext == (stem + a) + (b + ext)
  {
  }

  /** The tokens around the i-th one, with and without it. */
  lemma TokensAround(tags: seq<string>, i: nat)
    requires i < |tags|
    ensures Tokens(tags) == Tokens(tags[..i]) + [Marker] + tags[i] + Tokens(tags[i + 1..])
    ensures Tokens(tags[..i] + tags[i + 1..]) == Tokens(tags[..i]) + Tokens(tags[i + 1..])
  {
    TokensSplitAt(tags, i);
    TokensAppend(tags[..i], tags[i + 1..]);
  }

  lemma TokensSplitAt(tags: seq<string>, i: nat)
    requires i < |tags|
    ensures Tokens(tags) == Tokens(tags[..i]) + [Marker] + tags[i] + Tokens(tags[i + 1..])
  {
    var pre, post := tags[..i], tags[i + 1..];
    SplitAround(tags, i);
    calc {
      Tokens(tags);
      { TokensAppend(pre + [tags[i]], post); }
      Tokens(pre + [tags[i]]) + Tokens(post);
      { TokensLast(pre, tags[i]); }
      Tokens(pre) + [Marker] + tags[i] + Tokens(post);
    }
  }

  lemma SplitAround<T>(xs: seq<T>, i: nat)
    requires i < |xs|
    ensures xs == (xs[..i] + [xs[i]]) + xs[i + 1..]
  {
  }

  lemma TokensLast(xs: seq<string>, x: string)
    ensures Tokens(xs + [x]) == Tokens(xs) + [Marker] + x
  {
    assert (xs + [x])[..|xs|] == xs;
  }

  /**
    In a marker-free stem followed by the tokens of tags none of which
    contains `t`, `t` can only occur inside the stem, before every marker.
  */
  lemma EarlierTokensAvoid(stem: string, before: seq<string>, t: string)
    requires Marker !in stem && t != [] && Marker !in t
    requires forall j :: 0 <= j < |before| ==> !Contains(before[j], t)
    ensures var pre := stem + Tokens(before);
      forall q, k :: IsAt(pre, t, q) && 0 <= k <= q && k < |pre| ==> pre[k] != Marker
  {
    var a := Tokens(before);
    var pre := stem + a;
    forall q | IsAt(pre, t, q)
      ensures q < |stem|
    {
      if q >= |stem| {
        assert pre[q..q + |t|] == a[q - |stem|..q - |stem| + |t|];
        assert IsAt(a, t, q - |stem|);
        TokensAvoid(before, t);
      }
    }
  }

  /** Successive addTagToName calls, one per tag, in order. */
  function AddAll(name: string, tags: seq<string>, suffix: string): (r: string)
    requires '.' in name && '.' in suffix
    ensures '.' in r
    decreases |tags|
  {
    if tags == [] then name else AddAll(AddTagToName(name, tags[0], suffix), tags[1..], suffix)
  }

  /** Adding one more tag after a sequence of them is one more `AddTagToName`. */
  lemma {:induction false} AddAllAppend(name: string, tags: seq<string>, tag: string, suffix: string)
    requires '.' in name && '.' in suffix
    ensures AddAll(name, tags + [tag], suffix) == AddTagToName(AddAll(name, tags, suffix), tag, suffix)
    decreases |tags|
  {
    if tags != [] {
      assert (tags + [tag])[1..] == tags[1..] + [tag];
      AddAllAppend(AddTagToName(name, tags[0], suffix), tags[1..], tag, suffix);
    }
  }

  /** Adding tags whose tokens the name already carries leaves the name as it is. */
  lemma {:induction false} AddAllCarried(name: string, tags: seq<string>, suffix: string)
    requires '.' in name && '.' in suffix
    requires forall i :: 0 <= i < |tags| ==> Contains(name, Token(tags[i]))
    ensures AddAll(name, tags, suffix) == name
    decreases |tags|
  {
    if tags != [] {
      AddAllCarried(name, tags[1..], suffix);
    }
  }

  /** The tag list an engine-built name carries after `AddAll`. */
  function AddedTags(stem: string, tags: seq<string>, ext: string, more: seq<string>): seq<string>
    decreases |more|
  {
    if more == [] then tags
    else
      var next := if Contains(Encode(stem, tags, ext), Token(more[0])) then tags else tags + [more[0]];
      AddedTags(stem, next, ext, more[1..])
  }

  /**
    Adding any sequence of plain tags to an engine-built name gives an
    engine-built name again, over the same stem and extension.
  */
  lemma {:induction false} AddAllEncoded(stem: string, tags: seq<string>, ext: string, more: seq<string>)
    requires WellFormed(stem, tags, ext)
    requires forall i :: 0 <= i < |more| ==> PlainTag(more[i])
    ensures '.' in Encode(stem, tags, ext)
    ensures WellFormed(stem, AddedTags(stem, tags, ext, more), ext)
    ensures AddAll(Encode(stem, tags, ext), more, ext) == Encode(stem, AddedTags(stem, tags, ext, more), ext)
    decreases |more|
  {
    EncodedLastDot(stem, tags, ext);
    if more != [] {
      var t := more[0];
      AddToEncoded(stem, tags, ext, t);
      var next := if Contains(Encode(stem, tags, ext), Token(t)) then tags else tags + [t];
      assert WellFormed(stem, next, ext);
      AddAllEncoded(stem, next, ext, more[1..]);
    }
  }
}
