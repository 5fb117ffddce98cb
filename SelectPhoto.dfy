/**
  Selecting a photo file to edit: the name the photo was first known by
  is recovered from the file's current, possibly tagged, name, and the
  record filed under it is reused, or a new record is made when there is
  none.
*/
module SelectPhoto {
  import opened JavaStrings
  import opened RenameEngine
  import opened Photos

  /**
    The initial name recovered from the name of a selected file.  A name
    without the marker is its own initial name.  Otherwise the text from
    the first marker up to the last dot is cut out, and `String.replace`
    cuts every occurrence of it, not only the first.  `None` stands for the
    exception `substring` throws when no dot follows the first marker.
  */
  function InitialName(fileName: string): (r: Option<string>)
    ensures Marker !in fileName ==> r == Some(fileName)
    ensures r == None <==> Marker in fileName && LastIndexOfChar(fileName, '.') < IndexOfChar(fileName, Marker, 0)
  {
    var start := IndexOfChar(fileName, Marker, 0);
    if start == -1 then Some(fileName)
    else
      var end := LastIndexOfChar(fileName, '.');
      if end < start then None
      else Some(ReplaceAll(fileName, fileName[start..end], []))
  }

  /**
    Cutting `t`, which starts with the marker, out of `x + t + y`, where
    neither `x` nor `y` holds the marker, leaves `x + y`.
  */
  lemma CutOnce(x: string, t: string, y: string)
    requires t != [] && t[0] == Marker && Marker !in x && Marker !in y
    ensures ReplaceAll(x + t + y, t, []) == x + y
  {
    var ty := t + y;
    ReplaceAllSkips(x, ty, t, []);
    assert x + t + y == x + ty;
    assert ty[..|t|] == t && ty[|t|..] == y;
    assert ReplaceAll(ty, t, []) == [] + ReplaceAll(y, t, []);
    ReplaceAllSkips(y, [], t, []);
    assert y + [] == y;
    assert ReplaceAll([], t, []) == [];
  }

  /**
    With a marker before the last dot and none after it, the initial name
    is the text before the first marker followed by the text from the last
    dot: it holds no marker and keeps the extension.
  */
  lemma StripTagged(fileName: string)
    requires Marker in fileName
    requires IndexOfChar(fileName, Marker, 0) < LastIndexOfChar(fileName, '.')
    requires Marker !in fileName[LastIndexOfChar(fileName, '.')..]
    ensures '.' in fileName
    ensures InitialName(fileName)
         == Some(fileName[..IndexOfChar(fileName, Marker, 0)] + fileName[LastIndexOfChar(fileName, '.')..])
    ensures Marker !in InitialName(fileName).value
    ensures '.' in InitialName(fileName).value && Extension(InitialName(fileName).value) == Extension(fileName)
  {
    var s := IndexOfChar(fileName, Marker, 0);
    var e := LastIndexOfChar(fileName, '.');
    var x, t, y := fileName[..s], fileName[s..e], fileName[e..];
    assert fileName == x + t + y;
    assert Marker !in x by {
      forall k | 0 <= k < |x|
        ensures x[k] != Marker
      {
        assert x[k] == fileName[k];
      }
    }
    CutOnce(x, t, y);
    var r := x + y;
    assert InitialName(fileName) == Some(r);
    forall i | 0 < i < |y|
      ensures y[i] != '.'
    {
      assert y[i] == fileName[e + i];
    }
    LastIndexOfCharJoin(x, y, '.');
    assert Extension(r) == r[|x|..] == y;
  }

  /**
    Stripping an engine-built name gives back the name without its tags:
    the stem followed by the extension.
  */
  lemma StripEncoded(stem: string, tags: seq<string>, ext: string)
    requires WellFormed(stem, tags, ext)
    ensures InitialName(Encode(stem, tags, ext)) == Some(stem + ext)
  {
    var n := Encode(stem, tags, ext);
    if tags == [] {
      assert n == stem + ext;
    } else {
      TokensStart(tags);
      EncodedLastDot(stem, tags, ext);
      var s := |stem|;
      assert n[s] == Marker;
      IndexOfCharAt(n, Marker, 0, s);
      var e := |stem| + |Tokens(tags)|;
      assert n[..s] == stem && n[e..] == ext;
      StripTagged(n);
    }
  }

  /**
    A photo first known as `stem + ext`, with no marker in it, that has
    had any tags added, one after the other, is recovered by its initial
    name.
  */
  lemma StripAddAll(stem: string, ext: string, more: seq<string>)
    requires Marker !in stem && PlainExtension(ext)
    requires forall i :: 0 <= i < |more| ==> PlainTag(more[i])
    ensures '.' in stem + ext
    ensures InitialName(AddAll(stem + ext, more, ext)) == Some(stem + ext)
  {
    assert Tokens([]) == [];
    assert Encode(stem, [], ext) == stem + [] + ext;
    assert stem + [] == stem;
    AddAllEncoded(stem, [], ext, more);
    StripEncoded(stem, AddedTags(stem, [], ext, more), ext);
  }

  /**
    The photo to edit after `fileName` is chosen: the record filed under
    the recovered initial name, or, when there is none, a new photo with
    that initial name for the chosen file.  `None` when recovering the
    initial name throws.
  */
  method FindOrCreate(fileName: string, pm: PhotoManager, now: nat) returns (r: Option<PhotoNode>)
    ensures InitialName(fileName) == None ==> r == None
    ensures InitialName(fileName) != None ==> r != None
    ensures InitialName(fileName) != None && InitialName(fileName).value in pm.photos
      ==> r.value == pm.photos[InitialName(fileName).value]
    ensures InitialName(fileName) != None && InitialName(fileName).value !in pm.photos ==>
      && fresh(r.value) && r.value.name == InitialName(fileName).value
      && r.value.initialName == InitialName(fileName).value && r.value.fileName == fileName
      && r.value.tags == map[] && r.value.history == map[] && r.value.lastModifiedDate == None
  {
    var init := InitialName(fileName);
    if init == None {
      return None;
    }
    var found := pm.FindPhoto(init.value);
    if found == null {
      var p := new PhotoNode(init.value, fileName, now);
      r := Some(p);
    } else {
      r := Some(found);
    }
  }
}
