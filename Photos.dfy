/**
  The photo records, the tags, and the two registries that index them.

  `PhotoNode`, `Tag`, `TagManager` and `PhotoManager` refer to one another
  (a photo holds its tags, a tag holds its photos, both registries hold
  live objects), so they share one module.  The process-wide static maps of
  the two registries are modelled as explicit objects passed to the
  operations that use them, and the wall clock as a `now` parameter: one
  timestamp per operation, ordered as the `yyyy/MM/dd HH:mm:ss` strings
  are.
*/
module Photos {
  import opened JavaStrings
  import opened RenameEngine

  datatype Option<T> = None | Some(value: T)

  /**
    A memento entry of the renaming history: the name the photo was given
    and a copy of its tag map at that moment.  Being a value, a snapshot
    does not follow later changes to the photo.
  */
  datatype Snapshot = Snapshot(name: string, tags: map<string, Tag>)

  /** Which filename surgery `renamePhoto` performs. */
  datatype RenameMode = AddMode | DeleteMode | OtherMode

  /** The tag objects a map holds. */
  ghost function TagObjects(m: map<string, Tag>): set<Tag>
  {
    set k | k in m :: m[k]
  }

  /** Every tag is filed under its own name. */
  ghost predicate Keyed(m: map<string, Tag>)
  {
    forall k :: k in m ==> m[k].name == k
  }

  // ---------------------------------------------------------------------
  // Tag

  /** A tag: its name and the photos carrying it, keyed by their initial names. */
  class Tag {
    const name: string
    var photos: map<string, PhotoNode>

    constructor(name: string)
      ensures this.name == name && photos == map[]
    {
      this.name := name;
      photos := map[];
    }

    /**
      Files the photo under its initial name.  A photo already filed, or
      another record with the same initial name, is replaced: the key set
      grows by at most that one key.
    */
    method AddPhoto(photo: PhotoNode)
      modifies this
      ensures photos == old(photos)[photo.initialName := photo]
      ensures photos.Keys == old(photos).Keys + {photo.initialName}
    {
      photos := photos[photo.initialName := photo];
    }

    /** Removes the entry under the photo's initial name, if there is one. */
    method DeletePhoto(photo: PhotoNode)
      modifies this
      ensures photos == old(photos) - {photo.initialName}
    {
      photos := photos - {photo.initialName};
    }
  }

  // ---------------------------------------------------------------------
  // TagManager

  ghost function Elements(s: seq<string>): set<string>
  {
    set x | x in s
  }

  lemma ElementsAppend(s: seq<string>, x: string)
    ensures Elements(s + [x]) == Elements(s) + {x}
  {
    assert forall y :: y in s + [x] <==> y in s || y == x;
  }

  /** The names of the tags of `m` that no photo carries. */
  ghost function EmptyNames(m: map<string, Tag>): set<string>
    reads TagObjects(m)
  {
    set k | k in m && m[k].photos == map[] :: m[k].name
  }

  /** What `tagCleaner` leaves: every tag name of an unused tag removed. */
  ghost function Swept(m: map<string, Tag>): map<string, Tag>
    reads TagObjects(m)
  {
    m - EmptyNames(m)
  }

  /** The registry of every tag in use, by name. */
  class TagManager {
    var tags: map<string, Tag>

    /** A registry before anything is loaded into it. */
    constructor()
      ensures tags == map[]
    {
      tags := map[];
    }

    /** Files the tag under its current name, replacing any tag of that name. */
    method AppendTag(t: Tag)
      modifies this
      ensures tags == old(tags)[t.name := t]
    {
      tags := tags[t.name := t];
    }

    function GetTags(): map<string, Tag>
      reads this
    {
      tags
    }

    /** The tag filed under `name`, or null. */
    function FindTag(name: string): (r: Tag?)
      reads this
      ensures r == null <==> name !in tags
      ensures r != null ==> r == tags[name]
    {
      if name in tags then tags[name] else null
    }

    /**
      Collects the names of the tags without photos, then removes each of
      them.  Removal goes by the tag's name, not by the key it is filed
      under; the two agree in a keyed registry.
    */
    method TagCleaner()
      modifies this
      ensures tags == Swept(old(tags))
    {
      var toRemove: seq<string> := [];
      var rest := tags.Keys;
      ghost var seen: set<string> := {};
      while rest != {}
        invariant rest !! seen && rest + seen == tags.Keys
        invariant tags == old(tags)
        invariant Elements(toRemove) == set k | k in seen && tags[k].photos == map[] :: tags[k].name
        decreases rest
      {
        var k :| k in rest;
        if tags[k].photos == map[] {
          ElementsAppend(toRemove, tags[k].name);
          toRemove := toRemove + [tags[k].name];
        }
        rest := rest - {k};
        seen := seen + {k};
      }
      var i := 0;
      while i < |toRemove|
        invariant 0 <= i <= |toRemove|
        invariant tags == old(tags) - Elements(toRemove[..i])
      {
        assert toRemove[..i + 1] == toRemove[..i] + [toRemove[i]];
        ElementsAppend(toRemove[..i], toRemove[i]);
        tags := tags - {toRemove[i]};
        i := i + 1;
      }
      assert toRemove[..i] == toRemove;
    }
  }

  /** In a keyed registry, the sweep keeps exactly the tags some photo carries. */
  lemma SweptKeeps(m: map<string, Tag>)
    requires Keyed(m)
    ensures forall k :: k in Swept(m) <==> k in m && m[k].photos != map[]
    ensures forall k :: k in Swept(m) ==> Swept(m)[k] == m[k]
  {
    forall k | k in m && m[k].photos == map[]
      ensures k in EmptyNames(m)
    {
      assert m[k].name == k;
    }
  }

  /** A second sweep of a keyed registry removes nothing. */
  lemma SweptIdempotent(m: map<string, Tag>)
    requires Keyed(m)
    ensures Keyed(Swept(m))
    ensures Swept(Swept(m)) == Swept(m)
  {
    SweptKeeps(m);
    var s := Swept(m);
    assert EmptyNames(s) == {};
  }

  // ---------------------------------------------------------------------
  // PhotoManager

  /** The registry of every photo seen, by initial name, which no rename changes. */
  class PhotoManager {
    var photos: map<string, PhotoNode>

    /** A registry before anything is loaded into it. */
    constructor()
      ensures photos == map[]
    {
      photos := map[];
    }

    /** Files the photo under its initial name; a renamed photo replaces its own entry. */
    method AppendPhoto(photo: PhotoNode)
      modifies this
      ensures photos == old(photos)[photo.initialName := photo]
      ensures photos.Keys == old(photos).Keys + {photo.initialName}
    {
      photos := photos[photo.initialName := photo];
    }

    method RemovePhoto(photo: PhotoNode)
      modifies this
      ensures photos == old(photos) - {photo.initialName}
    {
      photos := photos - {photo.initialName};
    }

    /** The photo filed under `name`, or null. */
    function FindPhoto(name: string): (r: PhotoNode?)
      reads this
      ensures r == null <==> name !in photos
      ensures r != null ==> r == photos[name]
    {
      if name in photos then photos[name] else null
    }
  }

  // ---------------------------------------------------------------------
  // PhotoNode

  /** The history entries no later than `d`. */
  function Prune(h: map<nat, Snapshot>, d: nat): (r: map<nat, Snapshot>)
    ensures forall k :: k in r <==> k in h && k <= d
    ensures forall k :: k in r ==> r[k] == h[k]
  {
    map k | k in h && k <= d :: h[k]
  }

  /** The snapshot's tags the current map lacks. */
  function Fill(cur: map<string, Tag>, snap: map<string, Tag>): (r: map<string, Tag>)
    ensures forall k :: k in r <==> k in snap && k !in cur
  {
    map k | k in snap && k !in cur :: snap[k]
  }

  /**
    The tags a revert leaves: the snapshot's key set, each kept tag object
    where the photo still has one, the snapshot's object where it does not.
  */
  function Restore(cur: map<string, Tag>, snap: map<string, Tag>): (r: map<string, Tag>)
    ensures r.Keys == snap.Keys
    ensures forall k :: k in r ==> r[k] == if k in cur then cur[k] else snap[k]
  {
    map k | k in snap :: if k in cur then cur[k] else snap[k]
  }

  /**
    `m` holds the snapshot entries the current map lacks, except those
    under the keys still to visit, `rest`.
  */
  ghost predicate Collected(m: map<string, Tag>, cur: map<string, Tag>, snap: map<string, Tag>, rest: set<string>)
  {
    && (forall j :: j in m <==> j in snap && j !in rest && j !in cur)
    && (forall j :: j in m ==> m[j] == snap[j])
  }

  /** Visiting one more key collects its entry if the current map lacks it. */
  lemma CollectedStep(m: map<string, Tag>, cur: map<string, Tag>, snap: map<string, Tag>, rest: set<string>, k: string)
    requires Collected(m, cur, snap, rest) && k in snap
    ensures Collected(if k in cur then m else m[k := snap[k]], cur, snap, rest - {k})
  {
  }

  /** Once every key is visited, what was collected is the snapshot's fill. */
  lemma CollectedFill(m: map<string, Tag>, cur: map<string, Tag>, snap: map<string, Tag>)
    requires Collected(m, cur, snap, {})
    ensures m == Fill(cur, snap)
  {
  }

  /** Updating a union updates its right operand. */
  lemma UnionUpdate(a: map<string, Tag>, b: map<string, Tag>, k: string, v: Tag)
    ensures (a + b)[k := v] == a + b[k := v]
  {
  }

  /** Adding to a map the snapshot's tags missing from `base` adds only snapshot objects. */
  lemma FilledObjects(cur: map<string, Tag>, base: map<string, Tag>, snap: map<string, Tag>, filled: map<string, Tag>)
    requires filled == cur + Fill(base, snap)
    ensures TagObjects(filled) <= TagObjects(cur) + TagObjects(snap)
  {
    forall x | x in TagObjects(filled)
      ensures x in TagObjects(cur) + TagObjects(snap)
    {
      var k :| k in filled && filled[k] == x;
      if k in Fill(base, snap) {
        assert x in TagObjects(snap);
      } else {
        assert x in TagObjects(cur);
      }
    }
  }

  /** A second update of the same key overrides the first. */
  lemma UpdateTwice<K, V>(m: map<K, V>, k: K, x: V, y: V)
    ensures m[k := x][k := y] == m[k := y]
  {
  }

  /** The tag objects filed under the given keys. */
  ghost function Filed(m: map<string, Tag>, keys: set<string>): set<Tag>
  {
    set k | k in keys && k in m :: m[k]
  }

  /** Filing one more key adds its object. */
  lemma FiledStep(m: map<string, Tag>, keys: set<string>, k: string)
    requires k in m
    ensures Filed(m, keys + {k}) == Filed(m, keys) + {m[k]}
  {
  }

  /** The photo maps of the tags `objs`. */
  ghost function PhotoMaps(objs: set<Tag>): (r: map<Tag, map<string, PhotoNode>>)
    reads objs
    ensures r.Keys == objs && forall x {:trigger r[x]} :: x in objs ==> r[x] == x.photos
  {
    map x | x in objs :: x.photos
  }

  /** A tag's photo map after `p` is filed under `key` (when `add`) and that key then removed (when `drop`). */
  function Relisted(m: map<string, PhotoNode>, add: bool, drop: bool, key: string, p: PhotoNode): map<string, PhotoNode>
  {
    var a := if add then m[key := p] else m;
    if drop then a - {key} else a
  }

  /**
    Every tag of `objs` has the photo map `photos0` gave it, with the photo
    `p` filed under `key` if the tag is one of `added`, and that key then
    removed if it is one of `dropped`.
  */
  ghost predicate Relist(objs: set<Tag>, photos0: map<Tag, map<string, PhotoNode>>, added: set<Tag>, dropped: set<Tag>,
                         key: string, p: PhotoNode)
    reads objs
  {
    forall x :: x in objs ==> x in photos0 && x.photos == Relisted(photos0[x], x in added, x in dropped, key, p)
  }

  /**
    In a keyed map, a statement of the photo maps key by key, where the
    keys of `fill` gained the photo, is one about the tag objects.
  */
  lemma RelistKeyed(snap: map<string, Tag>, fill: map<string, Tag>, photos0: map<Tag, map<string, PhotoNode>>,
                    key: string, p: PhotoNode)
    requires Keyed(snap) && (forall j :: j in fill ==> j in snap && fill[j] == snap[j])
    requires forall x :: x in TagObjects(snap) ==> x in photos0
    requires forall j :: j in snap ==> snap[j].photos == if j in fill then photos0[snap[j]][key := p] else photos0[snap[j]]
    ensures Relist(TagObjects(snap), photos0, TagObjects(fill), {}, key, p)
  {
    forall x | x in TagObjects(snap)
      ensures x.photos == Relisted(photos0[x], x in TagObjects(fill), false, key, p)
    {
      var j :| j in snap && snap[j] == x;
      if x in TagObjects(fill) {
        var i :| i in fill && fill[i] == x;
        assert i == x.name == j;
      }
    }
  }

  /** The tags listed key by key for the keys of `own` the snapshot lacks are the tags filed under them. */
  lemma ListedFiled(own: map<string, Tag>, snap: map<string, Tag>, toRemove: seq<Tag>, keys: seq<string>)
    requires |keys| == |toRemove|
    requires forall i :: 0 <= i < |keys| ==> keys[i] in own && keys[i] !in snap && toRemove[i] == own[keys[i]]
    requires forall k :: k in own && k !in snap ==> k in keys
    ensures (set x | x in toRemove) == Filed(own, own.Keys - snap.Keys)
  {
    forall x | x in Filed(own, own.Keys - snap.Keys)
      ensures x in toRemove
    {
      var k :| k in own && k !in snap && own[k] == x;
      var i :| 0 <= i < |keys| && keys[i] == k;
      assert toRemove[i] == x;
    }
  }

  /** Two removals of `key`, from the tags `first` and then from the tags `second`, drop it from the tags of either. */
  lemma DropTwice(objs: set<Tag>, photos0: map<Tag, map<string, PhotoNode>>, mid: map<Tag, map<string, PhotoNode>>,
                  fin: map<Tag, map<string, PhotoNode>>, first: set<Tag>, second: set<Tag>, key: string, p: PhotoNode)
    requires objs <= photos0.Keys && objs <= mid.Keys && objs <= fin.Keys
    requires forall x :: x in objs ==> mid[x] == if x in first then photos0[x] - {key} else photos0[x]
    requires forall x :: x in objs ==> fin[x] == if x in second then mid[x] - {key} else mid[x]
    ensures forall x :: x in objs ==> fin[x] == Relisted(photos0[x], false, x in first + second, key, p)
  {
    forall x | x in objs
      ensures fin[x] == Relisted(photos0[x], false, x in first + second, key, p)
    {
      if x in first && x in second {
        assert photos0[x] - {key} - {key} == photos0[x] - {key};
      }
    }
  }

  /** The keys a snapshot fills in lie outside the keys the photo has, so filing them leaves those keys' tags alone. */
  lemma FiledFill(m: map<string, Tag>, own: map<string, Tag>, snap: map<string, Tag>, extras: set<string>)
    requires extras <= own.Keys
    ensures Filed(m + Fill(own, snap), extras) == Filed(m, extras)
  {
    assert forall k :: k in extras ==> k !in Fill(own, snap);
  }

  /**
    Filing the snapshot's missing tags changes neither the keys the
    snapshot lacks nor the tags filed under them, on the photo or in the
    registry.
  */
  lemma FilledExtras(own: map<string, Tag>, reg: map<string, Tag>, snap: map<string, Tag>)
    ensures (own + Fill(own, snap)).Keys - snap.Keys == own.Keys - snap.Keys
    ensures var extras := own.Keys - snap.Keys;
      Filed(own + Fill(own, snap), extras) + Filed(reg + Fill(own, snap), extras) == Filed(own, extras) + Filed(reg, extras)
  {
    FiledFill(own, own, snap, own.Keys - snap.Keys);
    FiledFill(reg, own, snap, own.Keys - snap.Keys);
  }

  /**
    After a revert, every tag the photo has keeps the photo: a kept tag
    had it and is not dropped, a re-added one gains it, and, the maps being
    keyed, no dropped tag is one of them.
  */
  lemma RestoredIndexed(own: map<string, Tag>, reg: map<string, Tag>, snap: map<string, Tag>,
                        photos0: map<Tag, map<string, PhotoNode>>, key: string, p: PhotoNode)
    requires Keyed(own) && Keyed(reg) && Keyed(snap)
    requires TagObjects(own) + TagObjects(snap) <= photos0.Keys
    requires forall k :: k in own ==> key in photos0[own[k]]
    ensures forall k :: k in Restore(own, snap) ==>
      var x := Restore(own, snap)[k];
      && x in TagObjects(own) + TagObjects(snap)
      && key in Relisted(photos0[x], x in TagObjects(Fill(own, snap)),
                         x in Filed(own, own.Keys - snap.Keys) + Filed(reg, own.Keys - snap.Keys), key, p)
  {
    var extras := own.Keys - snap.Keys;
    forall k | k in Restore(own, snap)
      ensures Restore(own, snap)[k] in TagObjects(own) + TagObjects(snap)
      ensures var x := Restore(own, snap)[k];
        key in Relisted(photos0[x], x in TagObjects(Fill(own, snap)), x in Filed(own, extras) + Filed(reg, extras), key, p)
    {
      var x := Restore(own, snap)[k];
      assert x.name == k;
      assert forall j :: j in extras && j in own ==> own[j].name != k;
      assert forall j :: j in extras && j in reg ==> reg[j].name != k;
      if k !in own {
        assert k in Fill(own, snap);
      }
    }
  }

  /**
    The bookkeeping of the second loop of revert, with the keys `rest`
    still to visit: `gone` holds the visited keys of `own` the snapshot
    lacks, and `toRemove` lists their tag objects, `keys` their keys.
  */
  ghost predicate Listed(own: map<string, Tag>, snap: map<string, Tag>, rest: set<string>, gone: set<string>,
                         toRemove: seq<Tag>, keys: seq<string>)
  {
    && (forall k :: k in gone <==> k in own && k !in snap && k !in rest)
    && |keys| == |toRemove|
    && (forall i :: 0 <= i < |keys| ==> keys[i] in gone && toRemove[i] == own[keys[i]])
    && (forall k :: k in gone ==> k in keys)
  }

  /** Visiting one more key lists its tag if the snapshot lacks it. */
  lemma ListedStep(own: map<string, Tag>, snap: map<string, Tag>, rest: set<string>, gone: set<string>,
                   toRemove: seq<Tag>, keys: seq<string>, k: string)
    requires Listed(own, snap, rest, gone, toRemove, keys) && k in rest && k in own
    ensures k in snap ==> Listed(own, snap, rest - {k}, gone, toRemove, keys)
    ensures k !in snap ==> Listed(own, snap, rest - {k}, gone + {k}, toRemove + [own[k]], keys + [k])
  {
  }

  /** The names the tags of a list carry. */
  ghost function TagNames(ts: seq<Tag>): set<string>
  {
    set i | 0 <= i < |ts| :: ts[i].name
  }

  /** Removing from the re-filled tags the keys the snapshot lacks gives the restored tags. */
  lemma RestoreBy(cur: map<string, Tag>, snap: map<string, Tag>, filled: map<string, Tag>, extra: set<string>)
    requires filled == cur + Fill(cur, snap) && extra == filled.Keys - snap.Keys
    ensures filled - extra == Restore(cur, snap)
  {
  }

  /**
    The parts of the state the first loop of revert changes, as values:
    the photo's name and tags, the tag registry, the history, the last
    modification and the photo registry.
  */
  datatype Scene = Scene(name: string, tags: map<string, Tag>, registry: map<string, Tag>,
                         history: map<nat, Snapshot>, last: Option<nat>, filed: map<string, PhotoNode>)

  /**
    The scene `cur` is the scene `s` after the tags `added` were added
    back to photo `p` at time `now`, in the order `order`, each through
    `AddTag` with the extension `ext`: the name is `AddAll` of those tags,
    the tag map and the registry gained them, and if there were any, the
    history, the last modification and the photo registry are those one
    `AddTag` leaves.
  */
  ghost predicate Progressed(cur: Scene, s: Scene, added: map<string, Tag>, order: seq<string>,
                             p: PhotoNode, ext: string, now: nat)
  {
    && (forall j :: j in order <==> j in added)
    && (added == map[] <==> order == [])
    && (added == map[] ==> cur.name == s.name)
    && (added != map[] ==> '.' in s.name && '.' in ext && cur.name == AddAll(s.name, order, ext))
    && cur.tags == s.tags + added
    && cur.registry == s.registry + added
    && (added == map[] ==> cur.history == s.history && cur.last == s.last && cur.filed == s.filed)
    && (added != map[] ==> cur.history == s.history[now := Snapshot(cur.name, cur.tags)] && cur.last == Some(now)
                           && cur.filed == s.filed[p.initialName := p])
  }

  /** Adding back one more tag the photo lacks keeps `Progressed`. */
  lemma ProgressedStep(cur: Scene, s: Scene, added: map<string, Tag>, order: seq<string>,
                       p: PhotoNode, ext: string, now: nat, k: string, t: Tag)
    requires Progressed(cur, s, added, order, p, ext, now) && k !in cur.tags
    requires '.' in s.name && '.' in ext
    ensures '.' in cur.name
    ensures var name := AddTagToName(cur.name, k, ext);
      Progressed(Scene(name, cur.tags[k := t], cur.registry[k := t],
                       cur.history[now := Snapshot(name, cur.tags[k := t])], Some(now),
                       cur.filed[p.initialName := p]),
                 s, added[k := t], order + [k], p, ext, now)
  {
    var name := AddTagToName(cur.name, k, ext);
    var added', order' := added[k := t], order + [k];
    assert forall j :: j in order' <==> j in added';
    AddAllAppend(s.name, order, k, ext);
    assert name == AddAll(s.name, order', ext);
    UnionUpdate(s.tags, added, k, t);
    assert cur.tags[k := t] == s.tags + added';
    UnionUpdate(s.registry, added, k, t);
    assert cur.registry[k := t] == s.registry + added';
    if added != map[] {
      UpdateTwice(s.history, now, cur.history[now], Snapshot(name, cur.tags[k := t]));
      UpdateTwice(s.filed, p.initialName, cur.filed[p.initialName], p);
    }
  }

  /** The name `renamePhoto` computes for each mode. */
  function NewName(name: string, tag: string, mode: RenameMode, suffix: string): (r: string)
    requires mode == AddMode ==> AddDefined(name, tag)
    requires mode == DeleteMode ==> DeleteDefined(name, tag)
    ensures mode == AddMode ==> Contains(r, Token(tag))
    ensures mode == DeleteMode && !Contains(name, tag) ==> r == name
    ensures mode == OtherMode ==> r == name
  {
    match mode
    case AddMode => AddTagToName(name, tag, suffix)
    case DeleteMode => DeleteTagFromName(name, tag)
    case OtherMode => name
  }

  /**
    A photo: its current name, the initial name it was first seen under,
    the name of the file object it was created with (whose extension every
    rename reuses), its tags, and the renaming history, a map from
    timestamps to snapshots.  `lastModifiedDate` is `None` until the first
    change, the empty string of the original.
  */
  class PhotoNode {
    var name: string
    const initialName: string
    const fileName: string
    const firstModificationDate: nat
    var lastModifiedDate: Option<nat>
    var tags: map<string, Tag>
    var history: map<nat, Snapshot>

    /** The last modification is always a key of the history. */
    ghost predicate Valid()
      reads this
    {
      match lastModifiedDate
      case None => history == map[]
      case Some(d) => d in history
    }

    /**
      The photo's half of the index between photos and tags: every tag
      the photo carries lists the photo under its initial name.
    */
    ghost predicate Indexed()
      reads this`tags, TagObjects(tags)
    {
      forall k :: k in tags ==> initialName in tags[k].photos
    }

    /**
      The tags' half of the index, over the registry `tm`: every tag filed
      there that lists the photo under its initial name is one of the
      photo's tags.
    */
    ghost predicate IndexedIn(tm: TagManager)
      reads this`tags, tm, TagObjects(tm.tags)
    {
      forall k :: k in tm.tags && initialName in tm.tags[k].photos ==> k in tags
    }

    /** A photo first seen under `originalName` at time `created`, untouched so far. */
    constructor(originalName: string, fileName: string, created: nat)
      ensures name == originalName && initialName == originalName
      ensures this.fileName == fileName && firstModificationDate == created
      ensures lastModifiedDate == None && tags == map[] && history == map[]
      ensures Valid()
    {
      name := originalName;
      initialName := originalName;
      this.fileName := fileName;
      firstModificationDate := created;
      lastModifiedDate := None;
      tags := map[];
      history := map[];
    }

    /** The baseline entry: the initial name and no tags, at the creation time. */
    method InitializeRenamingHistory()
      modifies this`history, this`lastModifiedDate
      ensures history == old(history)[firstModificationDate := Snapshot(initialName, map[])]
      ensures lastModifiedDate == Some(firstModificationDate)
      ensures name == old(name) && tags == old(tags)
      ensures Valid()
    {
      history := history[firstModificationDate := Snapshot(initialName, map[])];
      lastModifiedDate := Some(firstModificationDate);
    }

    /**
      Records the changed name with a copy of the current tags under the
      current time; a second record in the same second replaces the first.
    */
    method RecordToHistory(changedName: string, now: nat)
      modifies this`history, this`lastModifiedDate
      ensures history == old(history)[now := Snapshot(changedName, tags)]
      ensures lastModifiedDate == Some(now)
      ensures name == old(name) && tags == old(tags)
      ensures Valid()
    {
      history := history[now := Snapshot(changedName, tags)];
      lastModifiedDate := Some(now);
    }

    /**
      Renames after a tag change: computes the new name, takes it, records
      it in the history and refiles the photo.  The extension is taken from
      the file the photo was created with.
    */
    method RenamePhoto(t: Tag, mode: RenameMode, pm: PhotoManager, now: nat)
      requires '.' in fileName
      requires mode == AddMode ==> AddDefined(name, t.name)
      requires mode == DeleteMode ==> DeleteDefined(name, t.name)
      modifies this`name, this`history, this`lastModifiedDate, pm
      ensures name == NewName(old(name), t.name, mode, Extension(fileName))
      ensures tags == old(tags)
      ensures history == old(history)[now := Snapshot(name, tags)]
      ensures lastModifiedDate == Some(now)
      ensures pm.photos == old(pm.photos)[initialName := this]
      ensures Valid()
    {
      var suffix := fileName[LastIndexOfChar(fileName, '.')..];
      var newName := NewName(name, t.name, mode, suffix);
      name := newName;
      RecordToHistory(newName, now);
      pm.AppendPhoto(this);
    }

    /**
      Adds the tag: the baseline is recorded first if the photo was never
      changed, then the tag is filed in the photo, the photo in the tag and
      the tag in the registry, and the photo is renamed.
    */
    method AddTag(t: Tag, tm: TagManager, pm: PhotoManager, now: nat)
      requires '.' in fileName && AddDefined(name, t.name)
      modifies this, t, tm, pm
      ensures tags == old(tags)[t.name := t]
      ensures t.photos == old(t.photos)[initialName := this]
      ensures tm.tags == old(tm.tags)[t.name := t]
      ensures name == AddTagToName(old(name), t.name, Extension(fileName))
      ensures Contains(name, Token(t.name))
      ensures old(lastModifiedDate) == None ==>
        history == old(history)[firstModificationDate := Snapshot(initialName, map[])][now := Snapshot(name, tags)]
      ensures old(lastModifiedDate) != None ==> history == old(history)[now := Snapshot(name, tags)]
      ensures lastModifiedDate == Some(now)
      ensures pm.photos == old(pm.photos)[initialName := this]
      ensures Valid()
      ensures old(Indexed()) ==> Indexed()
      ensures old(IndexedIn(tm)) && Keyed(old(tm.tags)) ==> IndexedIn(tm)
    {
      if lastModifiedDate == None {
        InitializeRenamingHistory();
      }
      File(t, tm);
      label filed:
      RenamePhoto(t, AddMode, pm, now);
      assert tm.tags == old@filed(tm.tags) && tags == old@filed(tags);
    }

    /**
      The filing half of `addTag`: the tag is filed in the photo, the photo
      in the tag and the tag in the registry.
    */
    method File(t: Tag, tm: TagManager)
      modifies this`tags, t, tm
      ensures tags == old(tags)[t.name := t]
      ensures t.photos == old(t.photos)[initialName := this]
      ensures tm.tags == old(tm.tags)[t.name := t]
      ensures old(Indexed()) ==> Indexed()
      ensures old(IndexedIn(tm)) && Keyed(old(tm.tags)) ==> IndexedIn(tm)
    {
      ghost var reg := tm.tags;
      ghost var carried := IndexedIn(tm) && Keyed(reg);
      tags := tags[t.name := t];
      t.AddPhoto(this);
      tm.AppendTag(t);
      if carried {
        forall k | k in tm.tags && initialName in tm.tags[k].photos
          ensures k in tags
        {
          if k != t.name {
            assert reg[k].name == k;
          }
        }
      }
    }

    /**
      Deletes the tag: the baseline is recorded first if the photo was
      never changed, then the tag leaves the photo, the photo leaves the
      tag, unused tags are swept from the registry, and the photo is
      renamed.
    */
    method DeleteTag(t: Tag, tm: TagManager, pm: PhotoManager, now: nat)
      requires '.' in fileName && DeleteDefined(name, t.name)
      modifies this, t, tm, pm
      ensures tags == old(tags) - {t.name}
      ensures t.photos == old(t.photos) - {initialName}
      ensures tm.tags == Swept(old(tm.tags))
      ensures name == DeleteTagFromName(old(name), t.name)
      ensures old(lastModifiedDate) == None ==>
        history == old(history)[firstModificationDate := Snapshot(initialName, map[])][now := Snapshot(name, tags)]
      ensures old(lastModifiedDate) != None ==> history == old(history)[now := Snapshot(name, tags)]
      ensures lastModifiedDate == Some(now)
      ensures pm.photos == old(pm.photos)[initialName := this]
      ensures Valid()
      ensures old(Indexed()) && Keyed(old(tags)) ==> Indexed()
      ensures old(IndexedIn(tm)) && Keyed(old(tm.tags)) && (t.name in old(tm.tags) ==> old(tm.tags)[t.name] == t) ==>
        IndexedIn(tm)
    {
      if lastModifiedDate == None {
        InitializeRenamingHistory();
      }
      ghost var registered := tm.tags;
      Unfile(t, tm);
      label swept:
      RenamePhoto(t, DeleteMode, pm, now);
      assert unchanged@swept(TagObjects(registered));
      assert tm.tags == old@swept(tm.tags) && tags == old@swept(tags);
      assert Swept(registered) == old@swept(Swept(registered));
    }

    /**
      The filing half of `deleteTag`: the tag leaves the photo, the photo
      leaves the tag, and the registry drops the tags nobody uses.
    */
    method Unfile(t: Tag, tm: TagManager)
      modifies this`tags, t, tm
      ensures tags == old(tags) - {t.name}
      ensures t.photos == old(t.photos) - {initialName}
      ensures tm.tags == Swept(old(tm.tags))
      ensures old(Indexed()) && Keyed(old(tags)) ==> Indexed()
      ensures old(IndexedIn(tm)) && Keyed(old(tm.tags)) && (t.name in old(tm.tags) ==> old(tm.tags)[t.name] == t) ==>
        IndexedIn(tm)
    {
      ghost var registered := tm.tags;
      ghost var carried := IndexedIn(tm) && Keyed(registered) && (t.name in registered ==> registered[t.name] == t);
      tags := tags - {t.name};
      t.DeletePhoto(this);
      if carried {
        forall k | k in registered && initialName in registered[k].photos
          ensures k in tags
        {
          assert registered[k] != t && registered[k].name == k;
        }
      }
      tm.TagCleaner();
    }

    /** Refiles the photo after the file was moved to `newName`; the name itself is not touched. */
    method RenameWithNameGiven(newName: string, pm: PhotoManager)
      modifies pm
      ensures pm.photos == old(pm.photos)[initialName := this]
    {
      pm.AppendPhoto(this);
    }

    /** The photo's part of the state, with the two registries. */
    ghost function SceneOf(tm: TagManager, pm: PhotoManager): Scene
      reads this, tm, pm
    {
      Scene(name, tags, tm.tags, history, lastModifiedDate, pm.photos)
    }

    /**
      The tag side of the first loop of revert: the snapshot tags under the
      keys of `added` list this photo under its initial name, the others
      still have the photo maps `photos0` they started with.
    */
    ghost predicate Linked(snap: map<string, Tag>, added: map<string, Tag>, photos0: map<string, map<string, PhotoNode>>)
      reads TagObjects(snap)
    {
      forall j :: j in snap ==>
        j in photos0 && snap[j].photos == if j in added then photos0[j][initialName := this] else photos0[j]
    }

    /** `AddTag` on a photo that was changed before: no baseline entry is recorded. */
    method ReAddOne(t: Tag, tm: TagManager, pm: PhotoManager, now: nat,
                    ghost snap: map<string, Tag>, ghost added: map<string, Tag>,
                    ghost photos0: map<string, map<string, PhotoNode>>)
      requires '.' in fileName && AddDefined(name, t.name) && lastModifiedDate != None
      requires Keyed(snap) && t.name in snap && snap[t.name] == t && t.name !in added
      requires Linked(snap, added, photos0)
      modifies this, t, tm, pm
      ensures Linked(snap, added[t.name := t], photos0)
      ensures name == AddTagToName(old(name), t.name, Extension(fileName)) && Valid()
      ensures tags == old(tags)[t.name := t] && tm.tags == old(tm.tags)[t.name := t]
      ensures t.photos == old(t.photos)[initialName := this]
      ensures history == old(history)[now := Snapshot(name, tags)] && lastModifiedDate == Some(now)
      ensures pm.photos == old(pm.photos)[initialName := this]
    {
      AddTag(t, tm, pm, now);
      forall j | j in snap
        ensures j in photos0 && snap[j].photos == if j in added[t.name := t] then photos0[j][initialName := this] else photos0[j]
      {
        if j != t.name {
          assert snap[j].name != t.name;
        }
      }
    }

    /** One key of the first loop of revert: the tag is added back if the photo lacks it. */
    method ReAddStep(snap: map<string, Tag>, k: string, ghost added: map<string, Tag>,
                     ghost order: seq<string>, ghost s: Scene, ghost photos0: map<string, map<string, PhotoNode>>,
                     ghost ext: string, tm: TagManager, pm: PhotoManager, now: nat)
      returns (ghost added': map<string, Tag>, ghost order': seq<string>)
      requires Valid() && lastModifiedDate != None
      requires k in snap && k !in added && Keyed(snap)
      requires k !in s.tags ==> '.' in fileName && ext == Extension(fileName) && '.' in s.name
      requires Progressed(SceneOf(tm, pm), s, added, order, this, ext, now) && Linked(snap, added, photos0)
      modifies this, tm, pm, TagObjects(snap)
      ensures Valid() && lastModifiedDate != None
      ensures added' == if k in s.tags then added else added[k := snap[k]]
      ensures Progressed(SceneOf(tm, pm), s, added', order', this, ext, now) && Linked(snap, added', photos0)
    {
      added', order' := added, order;
      if k !in tags {
        var t := snap[k];
        ProgressedStep(SceneOf(tm, pm), s, added, order, this, ext, now, k, t);
        ReAddOne(t, tm, pm, now, snap, added, photos0);
        added', order' := added[k := t], order + [k];
      }
    }

    /**
      The first loop of revert: every snapshot tag the photo lacks is added
      back through `AddTag`, in an order the map leaves open, returned as
      `order`.  The name then carries each of their tokens.
    */
    method ReAddMissing(snap: map<string, Tag>, tm: TagManager, pm: PhotoManager, now: nat, ghost watched: set<Tag>)
      returns (ghost order: seq<string>)
      requires Valid() && lastModifiedDate != None
      requires Keyed(snap) && Keyed(tags)
      requires Fill(tags, snap) != map[] ==> '.' in fileName && '.' in name
      modifies this, tm, pm, TagObjects(snap)
      ensures forall j :: j in order <==> j in Fill(old(tags), snap)
      ensures Fill(old(tags), snap) == map[] ==> name == old(name)
      ensures Fill(old(tags), snap) != map[] ==> name == AddAll(old(name), order, Extension(fileName))
      ensures tags == old(tags) + Fill(old(tags), snap)
      ensures tm.tags == old(tm.tags) + Fill(old(tags), snap)
      ensures Fill(old(tags), snap) == map[] ==>
        history == old(history) && lastModifiedDate == old(lastModifiedDate) && pm.photos == old(pm.photos)
      ensures Fill(old(tags), snap) != map[] ==>
        history == old(history)[now := Snapshot(name, tags)] && lastModifiedDate == Some(now)
        && pm.photos == old(pm.photos)[initialName := this]
      ensures Valid() && Keyed(snap) && Keyed(tags)
      ensures forall j :: j in snap ==>
        snap[j].photos == if j in Fill(old(tags), snap) then old(snap[j].photos)[initialName := this] else old(snap[j].photos)
      ensures Relist(watched, old(PhotoMaps(watched)), TagObjects(Fill(old(tags), snap)), {}, initialName, this)
    {
      ghost var s := SceneOf(tm, pm);
      ghost var photos0 := map j | j in snap :: snap[j].photos;
      ghost var before := PhotoMaps(watched + TagObjects(snap));
      ghost var ext := if '.' in fileName then Extension(fileName) else ".";
      ghost var added;
      added, order := ReAddEach(snap, s, photos0, ext, tm, pm, now);
      RelistKeyed(snap, Fill(old(tags), snap), before, initialName, this);
      forall x | x in watched && x !in TagObjects(snap)
        ensures x !in TagObjects(Fill(old(tags), snap)) && x.photos == before[x]
      {
      }
      forall k | k in tags
        ensures tags[k].name == k
      {
        if k in old(tags) && old(tags)[k] in TagObjects(snap) {
          var j :| j in snap && snap[j] == old(tags)[k];
        }
      }
    }

    /** The loop of `ReAddMissing`, from the scene `s` and the tags' photo maps `photos0` it starts with. */
    method ReAddEach(snap: map<string, Tag>, ghost s: Scene, ghost photos0: map<string, map<string, PhotoNode>>,
                     ghost ext: string, tm: TagManager, pm: PhotoManager, now: nat)
      returns (ghost added: map<string, Tag>, ghost order: seq<string>)
      requires Valid() && lastModifiedDate != None
      requires Fill(s.tags, snap) != map[] ==> '.' in fileName && ext == Extension(fileName) && '.' in s.name
      requires s == SceneOf(tm, pm) && Keyed(snap) && photos0 == map j | j in snap :: snap[j].photos
      modifies this, tm, pm, TagObjects(snap)
      ensures Valid()
      ensures added == Fill(s.tags, snap)
      ensures Progressed(SceneOf(tm, pm), s, added, order, this, ext, now) && Linked(snap, added, photos0)
    {
      var rest := snap.Keys;
      added, order := map[], [];
      assert s.tags + added == s.tags && s.registry + added == s.registry;
      while rest != {}
        invariant rest <= snap.Keys
        invariant Collected(added, s.tags, snap, rest)
        invariant Valid() && lastModifiedDate != None
        invariant Progressed(SceneOf(tm, pm), s, added, order, this, ext, now) && Linked(snap, added, photos0)
        decreases rest
      {
        var k :| k in rest;
        CollectedStep(added, s.tags, snap, rest, k);
        added, order := ReAddStep(snap, k, added, order, s, photos0, ext, tm, pm, now);
        rest := rest - {k};
      }
      CollectedFill(added, s.tags, snap);
    }

    /**
      What the second loop of revert keeps: the registry's tags under the
      keys `gone` have forgotten the photo, the others still have the photo
      maps `photos0` they started with.
    */
    ghost predicate Unfiled(reg: map<string, Tag>, gone: set<string>, photos0: map<Tag, map<string, PhotoNode>>)
      reads TagObjects(reg)
    {
      forall x :: x in TagObjects(reg) ==>
        x in photos0
        && x.photos == if x in Filed(reg, gone) then photos0[x] - {initialName} else photos0[x]
    }

    /** One key of the second loop of revert: the registry's tag of that name forgets the photo. */
    method UnfileOne(tm: TagManager, k: string, ghost gone: set<string>,
                     ghost photos0: map<Tag, map<string, PhotoNode>>)
      requires k in tm.tags && Unfiled(tm.tags, gone, photos0)
      modifies tm.tags[k]
      ensures Unfiled(tm.tags, gone + {k}, photos0)
    {
      var found := tm.FindTag(k);
      FiledStep(tm.tags, gone, k);
      found.DeletePhoto(this);
    }

    /**
      The second loop of revert: for every tag of the photo the snapshot
      lacks, the registry's tag of that name forgets the photo, and the
      photo's own tag object is listed, with its key, for removal.
    */
    method UnfileExtra(snap: map<string, Tag>, tm: TagManager) returns (toRemove: seq<Tag>, ghost keys: seq<string>)
      requires forall k :: k in tags && k !in snap ==> k in tm.tags
      requires Keyed(tags)
      modifies TagObjects(tm.tags)
      ensures Keyed(tags)
      ensures |keys| == |toRemove|
      ensures forall i :: 0 <= i < |keys| ==> keys[i] in tags && keys[i] !in snap && toRemove[i] == tags[keys[i]]
      ensures forall k :: k in tags && k !in snap ==> k in keys
      ensures forall x :: x in TagObjects(tm.tags) ==>
        x.photos == if x in Filed(tm.tags, tags.Keys - snap.Keys) then old(x.photos) - {initialName} else old(x.photos)
    {
      ghost var photos0 := map x | x in TagObjects(tm.tags) :: x.photos;
      var own := tags;
      var rest := own.Keys;
      toRemove, keys := [], [];
      ghost var gone: set<string> := {};
      while rest != {}
        invariant rest <= own.Keys
        invariant Listed(own, snap, rest, gone, toRemove, keys)
        invariant Unfiled(tm.tags, gone, photos0)
        decreases rest
      {
        var k :| k in rest;
        ListedStep(own, snap, rest, gone, toRemove, keys, k);
        if k !in snap {
          UnfileOne(tm, k, gone, photos0);
          toRemove, keys := toRemove + [own[k]], keys + [k];
          gone := gone + {k};
        }
        rest := rest - {k};
      }
      assert gone == own.Keys - snap.Keys;
    }

    /**
      The third loop of revert: each listed tag forgets the photo, and the
      photo drops the entry under that tag's name.
    */
    method RemoveListed(toRemove: seq<Tag>)
      modifies this, toRemove
      ensures tags == old(tags) - TagNames(toRemove)
      ensures name == old(name) && history == old(history) && lastModifiedDate == old(lastModifiedDate)
      ensures forall x :: x in toRemove ==> x.photos == old(x.photos) - {initialName}
    {
      var i := 0;
      while i < |toRemove|
        invariant 0 <= i <= |toRemove|
        invariant forall x :: x in toRemove ==>
          x.photos == if x in toRemove[..i] then old(x.photos) - {initialName} else old(x.photos)
        invariant tags == old(tags) - TagNames(toRemove[..i])
        invariant name == old(name) && history == old(history) && lastModifiedDate == old(lastModifiedDate)
      {
        var t := toRemove[i];
        t.DeletePhoto(this);
        tags := tags - {t.name};
        assert TagNames(toRemove[..i + 1]) == TagNames(toRemove[..i]) + {t.name};
        i := i + 1;
      }
      assert toRemove[..i] == toRemove;
    }

    /**
      Reverts the photo to the history entry of time `d`, if there is one:
      the file takes the entry's name, the tags the entry has and the photo
      lacks are added back (each through `AddTag` at time `now`, in the
      order `order`), the tags the photo has and the entry lacks are
      removed on both sides, the history after `d` is dropped, and unused
      tags are swept from the registry.
    */
    method Revert(d: nat, tm: TagManager, pm: PhotoManager, now: nat, ghost photos0: map<Tag, map<string, PhotoNode>>)
      returns (ghost order: seq<string>)
      requires Valid()
      requires photos0 == PhotoMaps(TagObjects(tags) + TagObjects(tm.tags) + if d in history then TagObjects(history[d].tags) else {})
      requires d in history ==> Keyed(tags) && Keyed(history[d].tags)
      requires d in history && Fill(tags, history[d].tags) != map[] ==> '.' in fileName && '.' in history[d].name
      requires d in history ==> forall k :: k in tags && k !in history[d].tags ==> k in tm.tags
      modifies this, tm, pm, TagObjects(tags), TagObjects(tm.tags)
      modifies if d in history then TagObjects(history[d].tags) else {}
      ensures d !in old(history) ==>
        name == old(name) && tags == old(tags) && history == old(history)
        && lastModifiedDate == old(lastModifiedDate) && tm.tags == old(tm.tags) && pm.photos == old(pm.photos)
      ensures d in old(history) ==>
        var dest := old(history)[d];
        var missing := Fill(old(tags), dest.tags);
        && (forall j :: j in order <==> j in missing)
        && (missing == map[] ==> name == dest.name)
        && (missing != map[] ==> name == AddAll(dest.name, order, Extension(fileName)))
        && tags == Restore(old(tags), dest.tags)
        && (missing == map[] ==> history == Prune(old(history), d))
        && (missing != map[] ==> history == Prune(old(history)[now := Snapshot(name, old(tags) + missing)], d))
        && lastModifiedDate == Some(d)
        && tm.tags == Swept(old(tm.tags) + missing)
        && pm.photos == old(pm.photos)[initialName := this]
      ensures d !in old(history) ==> Relist(old(TagObjects(tags) + TagObjects(tm.tags)), photos0, {}, {}, initialName, this)
      ensures d in old(history) ==>
        var dest := old(history)[d];
        var extras := old(tags).Keys - dest.tags.Keys;
        Relist(old(TagObjects(tags) + TagObjects(tm.tags)) + TagObjects(dest.tags), photos0,
               TagObjects(Fill(old(tags), dest.tags)), old(Filed(tags, extras) + Filed(tm.tags, extras)), initialName, this)
      ensures old(Indexed()) && Keyed(old(tm.tags)) ==> Indexed()
      ensures Valid()
    {
      if d in history {
        order := RevertTo(d, history[d], tm, pm, now, photos0);
      } else {
        order := [];
      }
    }

    /** `Revert` when there is an entry `dest` at time `d`. */
    method RevertTo(d: nat, dest: Snapshot, tm: TagManager, pm: PhotoManager, now: nat,
                    ghost photos0: map<Tag, map<string, PhotoNode>>) returns (ghost order: seq<string>)
      requires Valid() && d in history && dest == history[d]
      requires photos0 == PhotoMaps(TagObjects(tags) + TagObjects(tm.tags) + TagObjects(dest.tags))
      requires Keyed(tags) && Keyed(dest.tags)
      requires Fill(tags, dest.tags) != map[] ==> '.' in fileName && '.' in dest.name
      requires forall k :: k in tags && k !in dest.tags ==> k in tm.tags
      modifies this, tm, pm, TagObjects(tags), TagObjects(tm.tags), TagObjects(dest.tags)
      ensures forall j :: j in order <==> j in Fill(old(tags), dest.tags)
      ensures Fill(old(tags), dest.tags) == map[] ==> name == dest.name
      ensures Fill(old(tags), dest.tags) != map[] ==> name == AddAll(dest.name, order, Extension(fileName))
      ensures tags == Restore(old(tags), dest.tags)
      ensures Fill(old(tags), dest.tags) == map[] ==> history == Prune(old(history), d)
      ensures Fill(old(tags), dest.tags) != map[] ==>
        history == Prune(old(history)[now := Snapshot(name, old(tags) + Fill(old(tags), dest.tags))], d)
      ensures lastModifiedDate == Some(d)
      ensures tm.tags == Swept(old(tm.tags) + Fill(old(tags), dest.tags))
      ensures pm.photos == old(pm.photos)[initialName := this]
      ensures Valid()
      ensures Relist(old(TagObjects(tags) + TagObjects(tm.tags)) + TagObjects(dest.tags), photos0,
                     TagObjects(Fill(old(tags), dest.tags)),
                     old(Filed(tags, tags.Keys - dest.tags.Keys) + Filed(tm.tags, tags.Keys - dest.tags.Keys)), initialName, this)
      ensures old(Indexed()) && Keyed(old(tm.tags)) ==> Indexed()
    {
      ghost var own, reg, extras := tags, tm.tags, tags.Keys - dest.tags.Keys;
      ghost var objs := TagObjects(tags) + TagObjects(tm.tags) + TagObjects(dest.tags);
      ghost var added, dropped := TagObjects(Fill(own, dest.tags)), Filed(own, extras) + Filed(reg, extras);
      order := TakeBack(dest, tm, pm, now, objs);
      RestoreBy(own, dest.tags, tags, tags.Keys - dest.tags.Keys);
      FilledExtras(own, reg, dest.tags);
      Settle(d, dest.tags, tm, pm, objs, photos0, added);
      if old(Indexed()) && Keyed(reg) {
        RevertIndexed(own, reg, dest.tags, objs, photos0);
      }
    }

    /** A revert keeps every tag the photo has listing the photo. */
    lemma RevertIndexed(own: map<string, Tag>, reg: map<string, Tag>, snap: map<string, Tag>,
                        objs: set<Tag>, photos0: map<Tag, map<string, PhotoNode>>)
      requires Keyed(own) && Keyed(reg) && Keyed(snap)
      requires TagObjects(own) + TagObjects(snap) <= objs
      requires forall k :: k in own ==> own[k] in photos0 && initialName in photos0[own[k]]
      requires tags == Restore(own, snap)
      requires Relist(objs, photos0, TagObjects(Fill(own, snap)),
                      Filed(own, own.Keys - snap.Keys) + Filed(reg, own.Keys - snap.Keys), initialName, this)
      ensures Indexed()
    {
      RestoredIndexed(own, reg, snap, photos0, initialName, this);
    }

    /** The first part of revert: the entry's name, then the entry's tags the photo lacks. */
    method TakeBack(dest: Snapshot, tm: TagManager, pm: PhotoManager, now: nat, ghost watched: set<Tag>)
      returns (ghost order: seq<string>)
      requires Valid() && lastModifiedDate != None
      requires Keyed(tags) && Keyed(dest.tags)
      requires Fill(tags, dest.tags) != map[] ==> '.' in fileName && '.' in dest.name
      requires forall k :: k in tags && k !in dest.tags ==> k in tm.tags
      modifies this, tm, pm, TagObjects(dest.tags)
      ensures forall j :: j in order <==> j in Fill(old(tags), dest.tags)
      ensures Fill(old(tags), dest.tags) == map[] ==> name == dest.name
      ensures Fill(old(tags), dest.tags) != map[] ==> name == AddAll(dest.name, order, Extension(fileName))
      ensures tags == old(tags) + Fill(old(tags), dest.tags)
      ensures tm.tags == old(tm.tags) + Fill(old(tags), dest.tags)
      ensures Fill(old(tags), dest.tags) == map[] ==> history == old(history) && lastModifiedDate == old(lastModifiedDate)
      ensures Fill(old(tags), dest.tags) != map[] ==>
        history == old(history)[now := Snapshot(name, tags)] && lastModifiedDate == Some(now)
      ensures pm.photos == old(pm.photos)[initialName := this]
      ensures Valid() && Keyed(tags)
      ensures forall k :: k in tags && k !in dest.tags ==> k in tm.tags
      ensures TagObjects(tags) <= TagObjects(old(tags)) + TagObjects(dest.tags)
      ensures TagObjects(tm.tags) <= TagObjects(old(tm.tags)) + TagObjects(dest.tags)
      ensures Relist(watched, old(PhotoMaps(watched)), TagObjects(Fill(old(tags), dest.tags)), {}, initialName, this)
    {
      RenameWithNameGiven(dest.name, pm);
      SetName(dest.name);
      order := ReAddMissing(dest.tags, tm, pm, now, watched);
      UpdateTwice(old(pm.photos), initialName, this, this);
      FilledObjects(old(tags), old(tags), dest.tags, tags);
      FilledObjects(old(tm.tags), old(tags), dest.tags, tm.tags);
    }

    /**
      The rest of revert: the tags the entry lacks are dropped, the history
      after `d` is stashed, and unused tags are swept from the registry.
    */
    method Settle(d: nat, snap: map<string, Tag>, tm: TagManager, pm: PhotoManager, ghost watched: set<Tag>,
                  ghost photos0: map<Tag, map<string, PhotoNode>>, ghost added: set<Tag>)
      requires Keyed(tags)
      requires forall k :: k in tags && k !in snap ==> k in tm.tags
      requires Relist(watched, photos0, added, {}, initialName, this)
      modifies this, tm, TagObjects(tags), TagObjects(tm.tags)
      ensures tags == old(tags) - (old(tags).Keys - snap.Keys)
      ensures name == old(name) && history == Prune(old(history), d) && lastModifiedDate == Some(d)
      ensures tm.tags == Swept(old(tm.tags)) && pm.photos == old(pm.photos)
      ensures Relist(watched, photos0, added,
                     old(Filed(tags, tags.Keys - snap.Keys) + Filed(tm.tags, tags.Keys - snap.Keys)), initialName, this)
    {
      ghost var objs := TagObjects(tags) + TagObjects(tm.tags);
      ghost var dropped := Filed(tags, tags.Keys - snap.Keys) + Filed(tm.tags, tags.Keys - snap.Keys);
      DropExtra(snap, tm);
      forall x | x in watched
        ensures x.photos == Relisted(photos0[x], x in added, x in dropped, initialName, this)
      {
        if x !in objs {
          assert x !in dropped;
        }
      }
      StashLaterChanges(d);
      tm.TagCleaner();
    }

    /**
      The second and third loops of revert: every tag the photo has and
      the snapshot lacks is dropped from the photo, and both that tag
      object and the registry's tag of that name forget the photo.
    */
    method DropExtra(snap: map<string, Tag>, tm: TagManager)
      requires Keyed(tags)
      requires forall k :: k in tags && k !in snap ==> k in tm.tags
      modifies this, TagObjects(tags), TagObjects(tm.tags)
      ensures tags == old(tags) - (old(tags).Keys - snap.Keys)
      ensures name == old(name) && history == old(history) && lastModifiedDate == old(lastModifiedDate)
      ensures Relist(old(TagObjects(tags) + TagObjects(tm.tags)), old(PhotoMaps(TagObjects(tags) + TagObjects(tm.tags))),
                     {}, old(Filed(tags, tags.Keys - snap.Keys) + Filed(tm.tags, tags.Keys - snap.Keys)), initialName, this)
    {
      ghost var own, reg, extras := tags, tm.tags, tags.Keys - snap.Keys;
      ghost var objs := TagObjects(tags) + TagObjects(tm.tags);
      ghost var photos0 := PhotoMaps(objs);
      var toRemove, keys := UnfileExtra(snap, tm);
      ListedFiled(own, snap, toRemove, keys);
      assert TagNames(toRemove) == extras;
      ghost var mid := PhotoMaps(objs);
      forall x | x in objs
        ensures mid[x] == if x in Filed(reg, extras) then photos0[x] - {initialName} else photos0[x]
      {
        if x !in TagObjects(reg) {
          assert x !in Filed(reg, extras);
        }
      }
      RemoveListed(toRemove);
      ghost var fin := PhotoMaps(objs);
      forall x | x in objs
        ensures fin[x] == if x in Filed(own, extras) then mid[x] - {initialName} else mid[x]
      {
        assert x in Filed(own, extras) <==> x in toRemove;
      }
      DropTwice(objs, photos0, mid, fin, Filed(reg, extras), Filed(own, extras), initialName, this);
      assert Filed(reg, extras) + Filed(own, extras) == Filed(own, extras) + Filed(reg, extras);
    }

    /** The first loop of `stashLaterChanges`: the history dates later than `d`, each once. */
    method LaterDates(d: nat) returns (later: seq<nat>)
      ensures forall k :: k in later <==> k in history && d < k
    {
      later := [];
      var rest := history.Keys;
      while rest != {}
        invariant rest <= history.Keys
        invariant forall k :: k in later ==> k in history && d < k
        invariant forall k :: k in history && k !in rest && d < k ==> k in later
        decreases rest
      {
        var k :| k in rest;
        if d < k {
          later := later + [k];
        }
        rest := rest - {k};
      }
    }

    /**
      Drops every history entry later than `d`, collecting their dates
      first, and makes `d` the last modification.
    */
    method StashLaterChanges(d: nat)
      modifies this
      ensures history == Prune(old(history), d)
      ensures lastModifiedDate == Some(d)
      ensures name == old(name) && tags == old(tags)
    {
      var toRemove := LaterDates(d);
      var i := 0;
      while i < |toRemove|
        invariant 0 <= i <= |toRemove|
        invariant forall k :: k in history <==> k in old(history) && k !in toRemove[..i]
        invariant forall k :: k in history ==> history[k] == old(history)[k]
        invariant name == old(name) && tags == old(tags)
      {
        history := history - {toRemove[i]};
        i := i + 1;
      }
      assert toRemove[..i] == toRemove;
      lastModifiedDate := Some(d);
    }

    method SetName(newName: string)
      modifies this
      ensures name == newName && tags == old(tags) && history == old(history)
      ensures lastModifiedDate == old(lastModifiedDate)
    {
      name := newName;
    }
  }
}
