/**
  Adding tags typed into the text field of the tag panel: the input is
  checked, split at commas, and each new name becomes a tag of the photo,
  shown in the photo's tag list and, if missing, in the list of all tags.
*/
module TagInput {
  import opened JavaStrings
  import opened RenameEngine
  import opened Photos

  // ---------------------------------------------------------------------
  // The names an input asks for

  /** The pieces of the field's trimmed text between commas. */
  function Pieces(input: string): seq<string>
  {
    JavaSplit(Trim(input), ',')
  }

  /**
    The names that join the list `shown`, in order: each piece trimmed,
    when it is not empty and neither in `shown` nor met earlier.
  */
  function NewNames(shown: seq<string>, pieces: seq<string>): seq<string>
    decreases |pieces|
  {
    if pieces == [] then []
    else
      var before := NewNames(shown, pieces[..|pieces| - 1]);
      var k := Trim(pieces[|pieces| - 1]);
      if k == [] || k in shown || k in before then before else before + [k]
  }

  /** No element occurs twice. */
  predicate Distinct(s: seq<string>)
  {
    forall i, j :: 0 <= i < j < |s| ==> s[i] != s[j]
  }

  /**
    The new names are exactly the non-empty names of the input that the
    list lacks, each once.
  */
  lemma {:induction false} NewNamesAre(shown: seq<string>, pieces: seq<string>)
    ensures forall k :: k in NewNames(shown, pieces) <==>
      k != [] && k !in shown && exists i :: 0 <= i < |pieces| && Trim(pieces[i]) == k
    ensures Distinct(NewNames(shown, pieces))
    decreases |pieces|
  {
    if pieces != [] {
      var n := |pieces| - 1;
      var init := pieces[..n];
      NewNamesAre(shown, init);
      forall k | k != [] && k !in shown && (exists i :: 0 <= i < |pieces| && Trim(pieces[i]) == k)
        ensures k in NewNames(shown, pieces)
      {
        var i :| 0 <= i < |pieces| && Trim(pieces[i]) == k;
        if i < n {
          assert Trim(init[i]) == k;
        }
      }
      forall k | k in NewNames(shown, pieces)
        ensures exists i :: 0 <= i < |pieces| && Trim(pieces[i]) == k
      {
        if k in NewNames(shown, init) {
          var i :| 0 <= i < n && Trim(init[i]) == k;
          assert Trim(pieces[i]) == k;
        }
      }
    }
  }

  /** The new names are none of the shown names, and the two lists joined have no duplicate. */
  lemma NoDuplicateNew(shown: seq<string>, pieces: seq<string>)
    requires Distinct(shown)
    ensures Distinct(shown + NewNames(shown, pieces))
  {
    var added := NewNames(shown, pieces);
    NewNamesAre(shown, pieces);
    var r := shown + added;
    forall i, j | 0 <= i < j < |r|
      ensures r[i] != r[j]
    {
      if j >= |shown| {
        assert r[j] == added[j - |shown|];
        if i >= |shown| {
          assert r[i] == added[i - |shown|];
        } else {
          assert r[i] in shown;
        }
      }
    }
  }

  /** `all` followed by the names of `added` it lacks, in order. */
  function Merged(all: seq<string>, added: seq<string>): seq<string>
    decreases |added|
  {
    if added == [] then all
    else
      var before := Merged(all, added[..|added| - 1]);
      var k := added[|added| - 1];
      if k in before then before else before + [k]
  }

  /**
    Merging keeps `all` as a prefix, holds every name of both lists and
    nothing else, and brings in no duplicate.
  */
  lemma {:induction false} MergedIs(all: seq<string>, added: seq<string>)
    ensures |all| <= |Merged(all, added)| && Merged(all, added)[..|all|] == all
    ensures forall k :: k in Merged(all, added) <==> k in all || k in added
    ensures Distinct(all) ==> Distinct(Merged(all, added))
    decreases |added|
  {
    if added != [] {
      var init := added[..|added| - 1];
      MergedIs(all, init);
      assert added == init + [added[|added| - 1]];
      var before := Merged(all, init);
      assert (before + [added[|added| - 1]])[..|all|] == before[..|all|];
    }
  }

  /**
    What an accepted input adds: none for an input that is blank or holds
    the marker, else the new names.
  */
  function ToAdd(input: string, shown: seq<string>): seq<string>
  {
    if Trim(input) == [] || Marker in Trim(input) then [] else NewNames(shown, Pieces(input))
  }

  /**
    Every name an input adds is non-empty, trimmed, free of the marker
    and of commas, and one the list did not show.
  */
  lemma AddedNamesPlain(input: string, shown: seq<string>)
    ensures forall k :: k in ToAdd(input, shown) ==>
      k != [] && IsTrimmed(k) && Marker !in k && ',' !in k && k !in shown
  {
    if Trim(input) != [] && Marker !in Trim(input) {
      var ps := Pieces(input);
      NewNamesAre(shown, ps);
      forall k | k in ToAdd(input, shown)
        ensures IsTrimmed(k) && Marker !in k && ',' !in k
      {
        var i :| 0 <= i < |ps| && Trim(ps[i]) == k;
        TrimIs(ps[i]);
        if Marker in k {
          TrimChars(ps[i], Marker);
        }
        if ',' in k {
          TrimChars(ps[i], ',');
        }
      }
    }
  }

  /** A name typed twice in one input, or already shown, is added at most once. */
  lemma NoDuplicateAdded(input: string, shown: seq<string>)
    requires Distinct(shown)
    ensures Distinct(shown + ToAdd(input, shown))
  {
    if ToAdd(input, shown) != [] {
      NoDuplicateNew(shown, Pieces(input));
    } else {
      assert shown + [] == shown;
    }
  }

  // ---------------------------------------------------------------------
  // The button

  /**
    The extension every rename of a photo created with the file
    `fileName` reuses; a file name without a dot has none, and then no tag
    can be added.
  */
  function FileExtension(fileName: string): (r: string)
    ensures '.' in fileName ==> r == Extension(fileName) && '.' in r
  {
    if '.' in fileName then Extension(fileName) else []
  }

  /** The names one more piece brings to those of the pieces before it. */
  lemma NewNamesStep(shown: seq<string>, pieces: seq<string>, i: nat)
    requires i < |pieces|
    ensures var before := NewNames(shown, pieces[..i]);
      var k := Trim(pieces[i]);
      NewNames(shown, pieces[..i + 1]) == if k == [] || k in shown || k in before then before else before + [k]
  {
    assert pieces[..i + 1][..i] == pieces[..i];
  }

  /** Merging one more name appends it unless it is there already. */
  lemma MergedStep(all: seq<string>, added: seq<string>, k: string)
    ensures Merged(all, added + [k]) == if k in Merged(all, added) then Merged(all, added) else Merged(all, added) + [k]
  {
    assert (added + [k])[..|added|] == added;
  }

  /** A name new in a prefix of the input makes the whole input add some name. */
  lemma {:induction false} NewNamesPrefix(shown: seq<string>, pieces: seq<string>, i: nat)
    requires i <= |pieces|
    ensures NewNames(shown, pieces[..i]) != [] ==> NewNames(shown, pieces) != []
    decreases |pieces|
  {
    if i < |pieces| {
      var init := pieces[..|pieces| - 1];
      assert init[..i] == pieces[..i];
      NewNamesPrefix(shown, init, i);
    } else {
      assert pieces[..i] == pieces;
    }
  }

  /**
    What the loop over the pieces starts from: this photo's list, the
    list of all tags, the photo's name, tags and file extension, the tag
    registry and the photo maps of the registry's tags, by name.
  */
  datatype Start = Start(shown: seq<string>, all: seq<string>, name: string,
                         tags: map<string, Tag>, registry: map<string, Tag>, ext: string,
                         photos: map<string, map<string, PhotoNode>>)

  /** The photo maps of the tags of `m`, by name. */
  ghost function PhotoMapsOf(m: map<string, Tag>): (r: map<string, map<string, PhotoNode>>)
    reads TagObjects(m)
    ensures r.Keys == m.Keys && forall j :: j in m ==> r[j] == m[j].photos
  {
    map j | j in m :: m[j].photos
  }

  /** The two lists are those of `st` with the names `order` shown in them. */
  ghost predicate Shown(st: Start, order: seq<string>, shown: seq<string>, all: seq<string>)
  {
    shown == st.shown + order && all == Merged(st.all, order)
  }

  /**
    The tags `objs`, one under each of the names `order`, were added to
    the photo's tags `tags` and to the registry `reg`, reused from the
    registry where it had them, and the registry is still keyed by name.
  */
  ghost predicate Attached(st: Start, objs: map<string, Tag>, order: seq<string>,
                        tags: map<string, Tag>, reg: map<string, Tag>)
  {
    && (forall j :: j in order <==> j in objs)
    && tags == st.tags + objs && reg == st.registry + objs && Keyed(reg)
    && (forall j :: j in objs && j in st.registry ==> objs[j] == st.registry[j])
  }

  /** `name` is the name `st.name` after the tokens of the names `order` were added, one after the other. */
  ghost predicate Named(st: Start, order: seq<string>, name: string)
  {
    && (order != [] ==> '.' in st.name && '.' in st.ext)
    && name == (if order == [] then st.name else AddAll(st.name, order, st.ext))
  }

  /**
    The tag side of the names added so far: each registry tag filed among
    `objs` lists the photo `p` besides the photos it had, the other
    registry tags are as they were, and each new tag lists `p` alone.
  */
  ghost predicate Carried(st: Start, objs: map<string, Tag>, p: PhotoNode)
    reads TagObjects(st.registry), TagObjects(objs)
  {
    && (forall j :: j in st.registry ==>
          j in st.photos && st.registry[j].photos == if j in objs then st.photos[j][p.initialName := p] else st.photos[j])
    && (forall j :: j in objs && j !in st.registry ==> objs[j].photos == map[p.initialName := p])
  }

  /**
    The tag side after one more name `k`: the registry `reg` of the step
    before holds the tags filed so far, every tag but the one named `k`
    kept its photo map, and the tag `t` filed under `k` gained the photo.
  */
  lemma CarriedNext(st: Start, objs: map<string, Tag>, reg: map<string, Tag>, k: string, t: Tag, p: PhotoNode)
    requires reg == st.registry + objs && k !in objs
    requires forall j :: j in objs && j in st.registry ==> objs[j] == st.registry[j]
    requires forall j :: j in st.registry ==>
      j in st.photos && (j != k ==> reg[j].photos == if j in objs then st.photos[j][p.initialName := p] else st.photos[j])
    requires forall j :: j in objs && j !in st.registry ==> objs[j].photos == map[p.initialName := p]
    requires k in st.registry ==> t == st.registry[k] && t.photos == st.photos[k][p.initialName := p]
    requires k !in st.registry ==> t.photos == map[p.initialName := p]
    ensures Carried(st, objs[k := t], p)
  {
  }

  /** Showing one more name appends it to this photo's list and merges it into the list of all tags. */
  lemma ShownOne(st: Start, order: seq<string>, shown: seq<string>, all: seq<string>, k: string)
    requires Shown(st, order, shown, all)
    ensures Shown(st, order + [k], shown + [k], if k in all then all else all + [k])
  {
    assert shown + [k] == st.shown + (order + [k]);
    MergedStep(st.all, order, k);
  }

  /**
    Filing under one more name `k`, not among `order`, the tag `t` the
    registry holds under `k` or a tag of that name it lacks keeps the
    tags filed.
  */
  lemma AttachedOne(st: Start, objs: map<string, Tag>, order: seq<string>,
                 tags: map<string, Tag>, reg: map<string, Tag>, k: string, t: Tag)
    requires Attached(st, objs, order, tags, reg)
    requires k !in order
    requires t.name == k && (k in reg ==> t == reg[k])
    ensures Attached(st, objs[k := t], order + [k], tags[k := t], reg[k := t])
  {
    var objs', order' := objs[k := t], order + [k];
    assert forall j :: j in order' <==> j in objs';
    UnionUpdate(st.tags, objs, k, t);
    UnionUpdate(st.registry, objs, k, t);
    assert forall j :: j in objs' && j in st.registry ==> objs'[j] == st.registry[j];
  }

  /** What the button did with the input. */
  datatype Outcome = Blank | HasMarker | Accepted(added: seq<string>)

  /**
    The add-tag button of the tag panel: the text typed in the field, the
    names shown in the photo's tag list, the names shown in the list of
    all tags, and the photo being edited.
  */
  class AddTagListener {
    var text: string
    var thisList: seq<string>
    var allList: seq<string>
    const photo: PhotoNode

    constructor(photo: PhotoNode, thisList: seq<string>, allList: seq<string>)
      ensures this.photo == photo && this.thisList == thisList && this.allList == allList && text == []
    {
      this.photo := photo;
      this.thisList := thisList;
      this.allList := allList;
      text := [];
    }

    /**
      The button press.  A blank input is refused and nothing changes; an
      input holding the marker is refused and the field is cleared.  Any
      other input is split at commas, and each trimmed piece that is not
      empty and not yet in the photo's list is added to the photo (with
      the registry's tag of that name, or a new tag), appended to the
      photo's list and, if missing there, to the list of all tags; then
      the field is cleared.  `objs` are the tags added, by name: the
      registry's own tag where it had one, a new tag otherwise.  The
      photo's name then carries them in the order they were typed.
    */
    method ActionPerformed(tm: TagManager, pm: PhotoManager, now: nat)
      returns (outcome: Outcome, ghost objs: map<string, Tag>)
      requires Keyed(tm.tags)
      requires ToAdd(text, thisList) != [] ==> '.' in photo.name && '.' in photo.fileName
      modifies this, photo, tm, pm, TagObjects(tm.tags)
      ensures Trim(old(text)) == [] ==>
        && outcome == Blank && text == old(text) && objs == map[]
        && unchanged(this, photo, tm, pm) && unchanged(TagObjects(old(tm.tags)))
      ensures Trim(old(text)) != [] && Marker in Trim(old(text)) ==>
        && outcome == HasMarker && text == [] && objs == map[]
        && thisList == old(thisList) && allList == old(allList)
        && unchanged(photo, tm, pm) && unchanged(TagObjects(old(tm.tags)))
      ensures Trim(old(text)) != [] && Marker !in Trim(old(text)) ==>
        && outcome == Accepted(ToAdd(old(text), old(thisList))) && text == []
        && thisList == old(thisList) + ToAdd(old(text), old(thisList))
        && allList == Merged(old(allList), ToAdd(old(text), old(thisList)))
      ensures forall j :: j in ToAdd(old(text), old(thisList)) <==> j in objs
      ensures photo.name == if ToAdd(old(text), old(thisList)) == [] then old(photo.name)
                            else AddAll(old(photo.name), ToAdd(old(text), old(thisList)), Extension(photo.fileName))
      ensures photo.tags == old(photo.tags) + objs && tm.tags == old(tm.tags) + objs && Keyed(tm.tags)
      ensures forall k :: k in objs && k in old(tm.tags) ==> objs[k] == old(tm.tags)[k]
      ensures forall k :: k in old(tm.tags) ==>
        old(tm.tags)[k].photos == if k in objs then old(tm.tags[k].photos)[photo.initialName := photo] else old(tm.tags[k].photos)
      ensures forall k :: k in objs && k !in old(tm.tags) ==> objs[k].photos == map[photo.initialName := photo]
      ensures forall k :: k in objs ==> photo.initialName in objs[k].photos
    {
      var allTags := Trim(text);
      if allTags == [] {
        return Blank, map[];
      } else if IndexOfChar(allTags, Marker, 0) != -1 {
        text := [];
        return HasMarker, map[];
      }
      outcome := Accepted(ToAdd(text, thisList));
      objs := Accept(tm, pm, now);
    }

    /**
      The accepted input: its pieces are added one by one, then the field
      is cleared.  The lists, the photo and the registry end as the
      button press promises for an accepted input.
    */
    method Accept(tm: TagManager, pm: PhotoManager, now: nat) returns (ghost objs: map<string, Tag>)
      requires Trim(text) != [] && Marker !in Trim(text)
      requires Keyed(tm.tags)
      requires ToAdd(text, thisList) != [] ==> '.' in photo.name && '.' in photo.fileName
      modifies this, photo, tm, pm, TagObjects(tm.tags)
      ensures text == []
      ensures thisList == old(thisList) + ToAdd(old(text), old(thisList))
      ensures allList == Merged(old(allList), ToAdd(old(text), old(thisList)))
      ensures forall j :: j in ToAdd(old(text), old(thisList)) <==> j in objs
      ensures photo.name == if ToAdd(old(text), old(thisList)) == [] then old(photo.name)
                            else AddAll(old(photo.name), ToAdd(old(text), old(thisList)), Extension(photo.fileName))
      ensures photo.tags == old(photo.tags) + objs && tm.tags == old(tm.tags) + objs && Keyed(tm.tags)
      ensures forall k :: k in objs && k in old(tm.tags) ==> objs[k] == old(tm.tags)[k]
      ensures forall k :: k in old(tm.tags) ==>
        old(tm.tags)[k].photos == if k in objs then old(tm.tags[k].photos)[photo.initialName := photo] else old(tm.tags[k].photos)
      ensures forall k :: k in objs && k !in old(tm.tags) ==> objs[k].photos == map[photo.initialName := photo]
      ensures forall k :: k in objs ==> photo.initialName in objs[k].photos
    {
      var pieces := JavaSplit(Trim(text), ',');
      ghost var st := Start(thisList, allList, photo.name, photo.tags, tm.tags, FileExtension(photo.fileName),
                            PhotoMapsOf(tm.tags));
      objs := AddEach(pieces, tm, pm, now, st);
      Concluded(tm, st, objs, NewNames(st.shown, pieces));
      text := [];
    }

    /**
      The state of the loop over the pieces after the names `order` were
      added from `st`, read from this listener, its photo and the
      registry, with the extension taken from the photo's file name.
    */
    ghost predicate Progress(tm: TagManager, st: Start, objs: map<string, Tag>, order: seq<string>)
      reads this`thisList, this`allList, photo, tm, TagObjects(st.registry), TagObjects(objs)
    {
      Shown(st, order, thisList, allList) && Filing(tm, st, objs, order)
    }

    /** The photo's and the tags' side of `Progress`. */
    ghost predicate Filing(tm: TagManager, st: Start, objs: map<string, Tag>, order: seq<string>)
      reads photo, tm, TagObjects(st.registry), TagObjects(objs)
    {
      && st.ext == FileExtension(photo.fileName)
      && Attached(st, objs, order, photo.tags, tm.tags)
      && Named(st, order, photo.name)
      && Carried(st, objs, photo)
    }

    /** The loop over the pieces of an accepted input. */
    method AddEach(pieces: seq<string>, tm: TagManager, pm: PhotoManager, now: nat, ghost st: Start)
      returns (ghost objs: map<string, Tag>)
      requires st == Start(thisList, allList, photo.name, photo.tags, tm.tags, FileExtension(photo.fileName),
                           PhotoMapsOf(tm.tags))
      requires Keyed(tm.tags)
      requires NewNames(thisList, pieces) != [] ==> '.' in photo.name && '.' in photo.fileName
      modifies this, photo, tm, pm, TagObjects(tm.tags)
      ensures text == old(text)
      ensures Progress(tm, st, objs, NewNames(st.shown, pieces))
    {
      ghost var order := [];
      objs := map[];
      var i := 0;
      assert pieces[..0] == [];
      ProgressStart(tm, st);
      while i < |pieces|
        invariant 0 <= i <= |pieces|
        invariant text == old(text)
        invariant order == NewNames(st.shown, pieces[..i])
        invariant Progress(tm, st, objs, order)
      {
        NewNamesStep(st.shown, pieces, i);
        NewNamesPrefix(st.shown, pieces, i + 1);
        objs, order := TakePiece(pieces[i], tm, pm, now, st, objs, order);
        assert order == NewNames(st.shown, pieces[..i+1]);
        i := i + 1;
      }
      assert pieces[..i] == pieces;
    }

    /**
      What the loop over the pieces leaves behind, read off its state: the
      lists show the names `order`, the photo and the registry hold the
      tags `objs` filed under them and the photo's name their tokens, and
      every tag filed lists the photo.
    */
    lemma Concluded(tm: TagManager, st: Start, objs: map<string, Tag>, order: seq<string>)
      requires Progress(tm, st, objs, order)
      ensures thisList == st.shown + order && allList == Merged(st.all, order)
      ensures forall j :: j in order <==> j in objs
      ensures photo.name == if order == [] then st.name else AddAll(st.name, order, st.ext)
      ensures photo.tags == st.tags + objs && tm.tags == st.registry + objs && Keyed(tm.tags)
      ensures forall k :: k in objs && k in st.registry ==> objs[k] == st.registry[k]
      ensures forall k :: k in st.registry ==>
        k in st.photos && st.registry[k].photos == if k in objs then st.photos[k][photo.initialName := photo] else st.photos[k]
      ensures forall k :: k in objs && k !in st.registry ==> objs[k].photos == map[photo.initialName := photo]
      ensures forall k :: k in objs ==> photo.initialName in objs[k].photos
    {
    }

    /** Nothing is added yet: the loop over the pieces starts from the state it reads. */
    lemma ProgressStart(tm: TagManager, st: Start)
      requires st == Start(thisList, allList, photo.name, photo.tags, tm.tags, FileExtension(photo.fileName),
                           PhotoMapsOf(tm.tags))
      requires Keyed(tm.tags)
      ensures Progress(tm, st, map[], [])
    {
      assert st.tags + map[] == st.tags && st.registry + map[] == st.registry;
    }

    /** Shows the tag named `k` in this photo's list and, when it is not there yet, in the list of all tags. */
    method Show(k: string, ghost tm: TagManager, ghost st: Start, ghost objs: map<string, Tag>, ghost order: seq<string>)
      modifies this
      ensures old(Filing(tm, st, objs, order)) ==> Filing(tm, st, objs, order)
      ensures thisList == old(thisList) + [k]
      ensures allList == if k in old(allList) then old(allList) else old(allList) + [k]
      ensures text == old(text)
    {
      thisList := thisList + [k];
      if k !in allList {
        allList := allList + [k];
      }
    }

    /**
      One piece of an accepted input: its trimmed text, when it is not
      blank and not yet in this photo's list, is attached to the photo,
      then shown in that list and merged into the list of all tags.
    */
    method TakePiece(piece: string, tm: TagManager, pm: PhotoManager, now: nat,
                     ghost st: Start, ghost objs: map<string, Tag>, ghost order: seq<string>)
      returns (ghost objs': map<string, Tag>, ghost order': seq<string>)
      requires Progress(tm, st, objs, order)
      requires Trim(piece) != [] && Trim(piece) !in thisList ==> '.' in st.name && '.' in photo.fileName
      modifies this, photo, tm, pm, if Trim(piece) in st.registry then {st.registry[Trim(piece)]} else {}
      ensures text == old(text)
      ensures order' == if Trim(piece) == [] || Trim(piece) in st.shown + order then order else order + [Trim(piece)]
      ensures Progress(tm, st, objs', order')
    {
      var k := Trim(piece);
      objs', order' := objs, order;
      if k != [] && k !in thisList {
        ghost var shown, all := thisList, allList;
        var t := AttachNext(k, tm, pm, now, st, objs, order);
        Show(k, tm, st, objs[k := t], order + [k]);
        ShownOne(st, order, shown, all, k);
        objs', order' := objs[k := t], order + [k];
      }
    }

    /**
      The tag side of one accepted name `k`: the tag is attached to the
      photo, and the photo, the registry and the tags stay filed as the
      names `order` and then `k` ask.
    */
    method AttachNext(k: string, tm: TagManager, pm: PhotoManager, now: nat,
                      ghost st: Start, ghost objs: map<string, Tag>, ghost order: seq<string>) returns (t: Tag)
      requires Filing(tm, st, objs, order)
      requires k != [] && k !in order && '.' in st.name && '.' in photo.fileName
      modifies photo, tm, pm, if k in st.registry then {st.registry[k]} else {}
      ensures unchanged(this)
      ensures t.name == k && (k in st.registry ==> t == st.registry[k])
      ensures Filing(tm, st, objs[k := t], order + [k])
    {
      ghost var tags, reg := photo.tags, tm.tags;
      AddAllAppend(st.name, order, k, st.ext);
      assert Keyed(st.registry) by {
        assert forall j :: j in st.registry ==> st.registry[j] == reg[j] || j in objs;
      }
      t := AttachTag(k, tm, pm, now);
      AttachedOne(st, objs, order, tags, reg, k, t);
      forall j | j in reg && j != k
        ensures reg[j].photos == old(reg[j].photos)
      {
      }
      CarriedNext(st, objs, reg, k, t, photo);
    }

    /**
      The registry's tag named `k`, or a new tag of that name when there
      is none, added to the photo through `AddTag`: the photo's name gains
      the tag's token and the tag is filed under `k` in the photo and in
      the registry, which stays keyed by name.
    */
    method AttachTag(k: string, tm: TagManager, pm: PhotoManager, now: nat) returns (t: Tag)
      requires '.' in photo.name && '.' in photo.fileName
      requires Keyed(tm.tags)
      modifies photo, tm, pm, if k in tm.tags then {tm.tags[k]} else {}
      ensures unchanged(this)
      ensures t.name == k
      ensures k in old(tm.tags) ==> t == old(tm.tags)[k]
      ensures k !in old(tm.tags) ==> fresh(t)
      ensures photo.name == AddTagToName(old(photo.name), k, Extension(photo.fileName))
      ensures photo.tags == old(photo.tags)[k := t] && tm.tags == old(tm.tags)[k := t]
      ensures Keyed(tm.tags)
      ensures k in old(tm.tags) ==> t.photos == old(tm.tags[k].photos)[photo.initialName := photo]
      ensures k !in old(tm.tags) ==> t.photos == map[photo.initialName := photo]
      ensures forall j :: j in old(tm.tags) && j != k ==> old(tm.tags)[j].photos == old(tm.tags[j].photos)
      ensures old(photo.lastModifiedDate) == None ==>
        photo.history == old(photo.history)[photo.firstModificationDate := Snapshot(photo.initialName, map[])]
                                           [now := Snapshot(photo.name, photo.tags)]
      ensures old(photo.lastModifiedDate) != None ==> photo.history == old(photo.history)[now := Snapshot(photo.name, photo.tags)]
      ensures photo.lastModifiedDate == Some(now)
      ensures pm.photos == old(pm.photos)[photo.initialName := photo]
    {
      var found := tm.FindTag(k);
      if found == null {
        t := new Tag(k);
      } else {
        t := found;
      }
      photo.AddTag(t, tm, pm, now);
    }
  }
}
