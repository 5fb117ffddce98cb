/**
  The file tree a directory is loaded into: nodes for directories and
  files, each with a name, a type, a parent and a map from file names to
  child nodes, and the breadth-first search that finds a file node by
  name below a given node.
*/
module FileTree {
  import opened Bfs

  /** The kinds of node; a photo is a file node of its own kind. */
  datatype FileType = Directory | File | Photo

  /**
    `kids` records, for every node the search can meet, the nodes it
    queues: the children of a directory, none for a file or a photo.
  */
  ghost predicate Mirrors(kids: map<FileNode, set<FileNode>>)
    reads kids.Keys
  {
    forall x :: x in kids ==> kids[x] == if x.kind == Directory then x.children.Values else {}
  }

  /** The recorded nodes the search for `n` stops at: those that are not directories and are named `n`. */
  ghost function Hits(kids: map<FileNode, set<FileNode>>, n: string): set<FileNode>
    reads kids.Keys
  {
    set x | x in kids && x.kind != Directory && x.name == n
  }

  /**
    A node of the tree: the name of the file or directory it stands for,
    whether it is a directory, its parent, and its children by file name.
  */
  class FileNode {
    var name: string
    var kind: FileType
    var parent: FileNode?
    var children: map<string, FileNode>

    /** A node with the given name, parent and type, and no children. */
    constructor (name: string, parent: FileNode?, kind: FileType)
      ensures this.name == name && this.parent == parent && this.kind == kind
      ensures children == map[]
    {
      this.name := name;
      this.parent := parent;
      this.kind := kind;
      children := map[];
    }

    /** Whether the node stands for a directory. */
    predicate IsDirectory()
      reads this
    {
      kind == Directory
    }

    method SetName(name: string)
      modifies this
      ensures this.name == name
      ensures kind == old(kind) && parent == old(parent) && children == old(children)
    {
      this.name := name;
    }

    method SetParent(p: FileNode?)
      modifies this
      ensures parent == p
      ensures name == old(name) && kind == old(kind) && children == old(children)
    {
      parent := p;
    }

    /** Files `child` under `key`, replacing any child filed there before. */
    method AddChild(key: string, child: FileNode)
      modifies this
      ensures children == old(children)[key := child]
      ensures name == old(name) && kind == old(kind) && parent == old(parent)
    {
      children := children[key := child];
    }

    /** Appends the children of this node to `queue`, in the iteration order of the map. */
    method QueueChildren(queue: seq<FileNode>) returns (q: seq<FileNode>)
      ensures |queue| <= |q| && q[..|queue|] == queue
      ensures Elems(q[|queue|..]) == children.Values
    {
      q := queue;
      ghost var added := [];
      var keys := children.Keys;
      while keys != {}
        invariant keys <= children.Keys
        invariant q == queue + added
        invariant Elems(added) == set k | k in children.Keys - keys :: children[k]
        decreases keys
      {
        var k :| k in keys;
        assert Elems(added + [children[k]]) == Elems(added) + {children[k]};
        q, added := q + [children[k]], added + [children[k]];
        keys := keys - {k};
      }
      assert q[|queue|..] == added;
    }

    /**
      One step of the search: the head of the queue is taken off; a
      directory has its children queued, and a node that is not a
      directory is returned when it is named `n`.
    */
    static method Visit(n: string, queue: seq<FileNode>, ghost kids: map<FileNode, set<FileNode>>,
                        ghost rank: map<FileNode, nat>, ghost top: nat, ghost start: set<FileNode>,
                        ghost levels: seq<set<FileNode>>, ghost front: seq<FileNode>, ghost back: seq<FileNode>,
                        ghost done: set<FileNode>)
      returns (found: FileNode?, queue': seq<FileNode>, ghost front': seq<FileNode>, ghost back': seq<FileNode>,
               ghost done': set<FileNode>)
      requires Mirrors(kids)
      requires Searching(kids, rank, top, Hits(kids, n), start, levels, front, back, done)
      requires queue == front + back && front != []
      ensures found != null ==> found.kind != Directory && found.name == n
      ensures found != null ==> found in Level(kids, start, |levels| - 1) && found in rank && rank[found] < top
      ensures found != null ==> forall j :: 0 <= j < |levels| - 1 ==> Level(kids, start, j) !! Hits(kids, n)
      ensures found == null ==> Searching(kids, rank, top, Hits(kids, n), start, levels, front', back', done')
      ensures found == null ==> queue' == front' + back' && front' == front[1..]
    {
      var node := queue[0];
      queue' := queue[1..];
      assert node == front[0] && queue' == front[1..] + back by {
        assert front == [front[0]] + front[1..];
      }
      ghost var added := [];
      if node.kind == Directory {
        var rest := queue';
        queue' := node.QueueChildren(rest);
        added := queue'[|rest|..];
        assert queue' == rest + added;
      } else if node.name == n {
        FoundAt(kids, rank, top, Hits(kids, n), start, levels, front, back, done);
        return node, queue', front, back, done;
      }
      PassNode(kids, rank, top, Hits(kids, n), start, levels, front, back, done, added);
      found, front', back', done' := null, front[1..], back + added, done + {node};
    }

    /**
      The first non-directory node named `n` met by a breadth-first search
      through this node's children and, below them, through directories
      only; `null` when there is none.  The children of a node are queued
      in the iteration order of its map, which is unspecified, so among
      several matches at the least depth any one may be returned.  The
      result is at depth `depth + 1` and no match lies higher up.
    */
    method FindChild(n: string, ghost kids: map<FileNode, set<FileNode>>, ghost rank: map<FileNode, nat>)
      returns (r: FileNode?, ghost depth: nat)
      requires Mirrors(kids) && Closed(kids) && Ranked(kids, rank)
      requires children.Values <= kids.Keys && this in rank
      requires forall y :: y in children.Values ==> rank[y] < rank[this]
      ensures r != null ==> r.kind != Directory && r.name == n && r != this
      ensures r != null ==> r in Level(kids, children.Values, depth)
      ensures r != null ==> forall j :: 0 <= j < depth ==> Level(kids, children.Values, j) !! Hits(kids, n)
      ensures r == null ==> forall i :: Level(kids, children.Values, i) !! Hits(kids, n)
    {
      ghost var start := children.Values;
      ghost var top := rank[this];
      ghost var hits := Hits(kids, n);
      var queue: seq<FileNode>;
      ghost var front;
      queue := QueueChildren([]);
      front := queue;
      ghost var levels := [start];
      ghost var back := [];
      ghost var done := {};
      StartSearch(kids, rank, top, hits, start, front);
      while queue != []
        invariant queue == front + back
        invariant |levels| <= top + 1
        invariant Searching(kids, rank, top, hits, start, levels, front, back, done)
        decreases top + 1 - |levels|, |front|
      {
        levels, front, back, done := Advance(kids, rank, top, hits, start, levels, front, back, done);
        var found;
        found, queue, front, back, done := Visit(n, queue, kids, rank, top, start, levels, front, back, done);
        if found != null {
          return found, |levels| - 1;
        }
      }
      Exhausted(kids, rank, top, hits, start, levels, done);
      r, depth := null, |levels| - 1;
    }
  }
}
