/** The comment section of a blog: the flat list of comments, its split into
    top-level comments and replies, replies grouped by parent, optimistic
    posting with a temporary negative id, and the reply tree. */
module Comments {
  import opened Models
  import opened Lists

  // ---------------------------------------------------------------------
  // Trimming
  // ---------------------------------------------------------------------

  /** The characters that string trimming strips: the white-space characters
      and line terminators of ECMAScript (section 12.2 and 12.3 of
      ECMA-262), the space separators of Unicode included. */
  predicate IsSpace(c: char)
  {
    c == '\t' || c == '\n' || c == '\U{000B}' || c == '\U{000C}' || c == '\r' || c == ' ' ||
    c == '\U{00A0}' || c == '\U{1680}' || ('\U{2000}' <= c <= '\U{200A}') ||
    c == '\U{2028}' || c == '\U{2029}' || c == '\U{202F}' || c == '\U{205F}' ||
    c == '\U{3000}' || c == '\U{FEFF}'
  }

  /** How many white-space characters `s` starts with. */
  function LeadingSpaces(s: string): (k: nat)
    ensures k <= |s|
    ensures forall i :: 0 <= i < k ==> IsSpace(s[i])
    ensures k < |s| ==> !IsSpace(s[k])
  {
    if s == [] || !IsSpace(s[0]) then 0 else 1 + LeadingSpaces(s[1..])
  }

  /** How many white-space characters `s` ends with. */
  function TrailingSpaces(s: string): (k: nat)
    ensures k <= |s|
    ensures forall i :: |s| - k <= i < |s| ==> IsSpace(s[i])
    ensures k < |s| ==> !IsSpace(s[|s| - k - 1])
  {
    if s == [] || !IsSpace(s[|s| - 1]) then 0 else 1 + TrailingSpaces(s[..|s| - 1])
  }

  /** `s` without its leading and trailing white space. */
  function Trim(s: string): (r: string)
    ensures |r| <= |s|
    ensures r == [] <==> forall i :: 0 <= i < |s| ==> IsSpace(s[i])
    ensures r != [] ==> !IsSpace(r[0]) && !IsSpace(r[|r| - 1])
    ensures LeadingSpaces(s) + |r| <= |s| && r == s[LeadingSpaces(s)..LeadingSpaces(s) + |r|]
    ensures forall i :: LeadingSpaces(s) + |r| <= i < |s| ==> IsSpace(s[i])
  {
    var a := LeadingSpaces(s);
    var rest := s[a..];
    var b := TrailingSpaces(rest);
    var r := rest[..|rest| - b];
    assert r == s[a..a + |r|];
    forall i | a + |r| <= i < |s|
      ensures IsSpace(s[i])
    {
      assert s[i] == rest[i - a] && |rest| - b <= i - a;
    }
    r
  }

  /** Trimming twice is trimming once. */
  lemma TrimIdempotent(s: string)
    ensures Trim(Trim(s)) == Trim(s)
  {
    var t := Trim(s);
    if t != [] {
      assert LeadingSpaces(t) == 0;
      assert TrailingSpaces(t) == 0;
      assert t[0..][..|t|] == t;
    }
  }

  // ---------------------------------------------------------------------
  // Top-level comments and replies
  // ---------------------------------------------------------------------

  predicate IsTopLevel(c: Comment) { c.parentCommentId.None? }
  predicate IsReply(c: Comment) { c.parentCommentId.Some? }

  /** The comments with no parent, in list order. */
  function TopLevel(list: seq<Comment>): (r: seq<Comment>)
    ensures forall c :: c in r <==> c in list && c.parentCommentId.None?
  {
    Filter(list, IsTopLevel)
  }

  /** The comments with a parent, in list order. */
  function Replies(list: seq<Comment>): (r: seq<Comment>)
    ensures forall c :: c in r <==> c in list && c.parentCommentId.Some?
  {
    Filter(list, IsReply)
  }

  /** Top-level comments and replies split the list: together they hold
      every comment exactly as often as the list does, and each keeps list
      order, so that splitting a concatenation splits each part. */
  lemma TopLevelAndRepliesPartition(list: seq<Comment>, more: seq<Comment>)
    ensures multiset(TopLevel(list)) + multiset(Replies(list)) == multiset(list)
    ensures |TopLevel(list)| + |Replies(list)| == |list|
    ensures TopLevel(list + more) == TopLevel(list) + TopLevel(more)
    ensures Replies(list + more) == Replies(list) + Replies(more)
  {
    FilterSplit(list, IsTopLevel, IsReply);
    FilterConcat(list, more, IsTopLevel);
    FilterConcat(list, more, IsReply);
  }

  // ---------------------------------------------------------------------
  // Replies grouped by parent
  // ---------------------------------------------------------------------

  /** Whether `c` is a reply to comment `p`. */
  function ReplyTo(p: int): Comment -> bool
  {
    (c: Comment) => c.parentCommentId == Some(p)
  }

  /** The ids that some reply names as its parent. */
  function ParentIds(list: seq<Comment>): (ps: set<int>)
    ensures forall p :: p in ps <==> exists c :: c in list && c.parentCommentId == Some(p)
  {
    set c | c in list && c.parentCommentId.Some? :: c.parentCommentId.value
  }

  /** One more reply adds its parent's id. */
  lemma ParentIdsSnoc(s: seq<Comment>, i: nat)
    requires i < |s| && s[i].parentCommentId.Some?
    ensures ParentIds(s[..i + 1]) == ParentIds(s[..i]) + {s[i].parentCommentId.value}
  {
    assert s[..i + 1] == s[..i] + [s[i]];
  }

  /** A comment that no reply names as its parent has no replies. */
  lemma NoReplyToAbsentParent(s: seq<Comment>, p: int)
    requires p !in ParentIds(s)
    ensures Filter(s, ReplyTo(p)) == []
  {
  }

  /** Grouping the replies alone gives the same buckets as grouping the
      whole list, and every id that some reply names has a non-empty bucket. */
  lemma BucketsOfReplies(list: seq<Comment>, p: int)
    ensures Filter(Replies(list), ReplyTo(p)) == Filter(list, ReplyTo(p))
    ensures p in ParentIds(list) ==> Filter(list, ReplyTo(p)) != []
  {
    FilterNarrower(list, IsReply, ReplyTo(p));
    if p in ParentIds(list) {
      var c :| c in list && c.parentCommentId == Some(p);
      assert c in Filter(list, ReplyTo(p));
    }
  }

  /** `m` holds, for each parent id named in `s`, that parent's replies in
      `s`, in order, and nothing else. */
  ghost predicate GroupedBy(m: map<int, seq<Comment>>, s: seq<Comment>)
  {
    m.Keys == ParentIds(s) && forall p :: p in m ==> m[p] == Filter(s, ReplyTo(p))
  }

  /** Reply `r` pushed onto its parent's bucket, the bucket created first
      if it is missing. */
  function AddReply(m: map<int, seq<Comment>>, r: Comment): map<int, seq<Comment>>
    requires r.parentCommentId.Some?
  {
    var key := r.parentCommentId.value;
    var m1 := if key !in m then m[key := []] else m;
    m1[key := m1[key] + [r]]
  }

  /** After adding reply `rs[i]`, bucket `p` holds the replies to `p` among
      the first i+1. */
  lemma BucketStep(m: map<int, seq<Comment>>, rs: seq<Comment>, i: nat, p: int)
    requires i < |rs| && rs[i].parentCommentId.Some?
    requires GroupedBy(m, rs[..i])
    requires p in AddReply(m, rs[i])
    ensures AddReply(m, rs[i])[p] == Filter(rs[..i + 1], ReplyTo(p))
  {
    FilterSnoc(rs, i, ReplyTo(p));
    if p !in m {
      NoReplyToAbsentParent(rs[..i], p);
    }
  }

  /** Adding reply `rs[i]` keeps the grouping up to date. */
  lemma GroupedStep(m: map<int, seq<Comment>>, rs: seq<Comment>, i: nat)
    requires i < |rs| && rs[i].parentCommentId.Some?
    requires GroupedBy(m, rs[..i])
    ensures GroupedBy(AddReply(m, rs[i]), rs[..i + 1])
  {
    ParentIdsSnoc(rs, i);
    forall p | p in AddReply(m, rs[i]) ensures AddReply(m, rs[i])[p] == Filter(rs[..i + 1], ReplyTo(p)) {
      BucketStep(m, rs, i, p);
    }
  }

  /** Grouping the replies of a list groups the whole list by parent. */
  lemma GroupedReplies(list: seq<Comment>, m: map<int, seq<Comment>>)
    requires GroupedBy(m, Replies(list))
    ensures m.Keys == ParentIds(list)
    ensures forall p :: p in m ==> m[p] == Filter(list, ReplyTo(p)) && m[p] != []
  {
    assert ParentIds(Replies(list)) == ParentIds(list);
    forall p | p in m ensures m[p] == Filter(list, ReplyTo(p)) && m[p] != [] {
      BucketsOfReplies(list, p);
    }
  }

  /** Group the replies by the comment they answer: one bucket per parent
      id that occurs, holding that parent's replies in list order. */
  method RepliesByParent(list: seq<Comment>) returns (m: map<int, seq<Comment>>)
    ensures m.Keys == ParentIds(list)
    ensures forall p :: p in m ==> m[p] == Filter(list, ReplyTo(p))
    ensures forall p :: p in m ==> m[p] != []
  {
    var rs := Replies(list);
    m := map[];
    for i := 0 to |rs|
      invariant GroupedBy(m, rs[..i])
    {
      var r := rs[i];
      assert r in rs;
      var parentId := r.parentCommentId.value;
      GroupedStep(m, rs, i);
      if parentId !in m {
        m := m[parentId := []];
      }
      m := m[parentId := m[parentId] + [r]];
    }
    assert rs[..|rs|] == rs;
    GroupedReplies(list, m);
  }

  // ---------------------------------------------------------------------
  // Replacing and removing by id
  // ---------------------------------------------------------------------

  /** The set of ids present. */
  function Ids(list: seq<Comment>): set<int>
  {
    set c | c in list :: c.id
  }

  /** No two comments share an id. */
  predicate UniqueIds(list: seq<Comment>)
  {
    forall i, j :: 0 <= i < j < |list| ==> list[i].id != list[j].id
  }

  /** Every comment with the given id replaced by `stored`; the rest, and the
      order, untouched. */
  function ReplaceById(list: seq<Comment>, id: int, stored: Comment): (r: seq<Comment>)
    ensures |r| == |list|
    ensures forall i :: 0 <= i < |list| ==> r[i] == if list[i].id == id then stored else list[i]
  {
    if list == [] then []
    else [if list[0].id == id then stored else list[0]] + ReplaceById(list[1..], id, stored)
  }

  /** Whether a comment's id differs from `id`. */
  function IdIsNot(id: int): Comment -> bool
  {
    (c: Comment) => c.id != id
  }

  /** Every comment with the given id removed; the rest keep their order. */
  function RemoveById(list: seq<Comment>, id: int): (r: seq<Comment>)
    ensures forall c :: c in r <==> c in list && c.id != id
    ensures id !in Ids(r)
  {
    Filter(list, IdIsNot(id))
  }

  /** Inserting a comment with a fresh id at either end and then removing
      that id gives back exactly the list before the insertion. */
  lemma {:induction false} InsertThenRemove(list: seq<Comment>, c: Comment)
    requires c.id !in Ids(list)
    ensures RemoveById([c] + list, c.id) == list
    ensures RemoveById(list + [c], c.id) == list
  {
    assert forall i :: 0 <= i < |list| ==> list[i].id != c.id;
    FilterKeepsAll(list, IdIsNot(c.id));
    FilterConcat([c], list, IdIsNot(c.id));
    FilterConcat(list, [c], IdIsNot(c.id));
    assert [c][1..] == [];
  }

  /** Replacing the entry of a fresh id inserted at either end puts the
      server's comment in its place and touches nothing else. */
  lemma InsertThenReplace(list: seq<Comment>, c: Comment, stored: Comment)
    requires c.id !in Ids(list)
    ensures ReplaceById([c] + list, c.id, stored) == [stored] + list
    ensures ReplaceById(list + [c], c.id, stored) == list + [stored]
  {
    var front := ReplaceById([c] + list, c.id, stored);
    forall i | 0 <= i < |front| ensures front[i] == ([stored] + list)[i] {
      if i > 0 {
        assert ([c] + list)[i] == list[i - 1];
        assert list[i - 1] in list;
      }
    }
    var back := ReplaceById(list + [c], c.id, stored);
    forall i | 0 <= i < |back| ensures back[i] == (list + [stored])[i] {
      if i < |list| {
        assert (list + [c])[i] == list[i];
        assert list[i] in list;
      }
    }
  }

  // ---------------------------------------------------------------------
  // The reply tree
  // ---------------------------------------------------------------------

  /** The tree puts a comment at the top when its parent id is missing or 0:
      it tests the parent id for truthiness, not for null. */
  predicate IsTreeRoot(c: Comment)
  {
    c.parentCommentId.None? || c.parentCommentId.value == 0
  }

  /** Whether the tree links `c` under comment `p`. */
  function ChildOf(p: int): Comment -> bool
  {
    (c: Comment) => p != 0 && c.parentCommentId == Some(p)
  }

  /** Each comment occurs once in a list without repeated ids. */
  lemma {:induction false} UniqueIdsOnce(list: seq<Comment>, c: Comment)
    requires UniqueIds(list) && c in list
    ensures multiset(list)[c] == 1
  {
    assert list == [list[0]] + list[1..];
    if list[0] == c {
      assert c !in list[1..];
    } else {
      UniqueIdsOnce(list[1..], c);
    }
  }

  /** Two lists whose ids agree position by position have the same ids. */
  lemma SameIdsPointwise(a: seq<Comment>, b: seq<Comment>)
    requires |a| == |b| && forall i :: 0 <= i < |a| ==> a[i].id == b[i].id
    ensures Ids(a) == Ids(b)
  {
    forall id | id in Ids(a) ensures id in Ids(b) {
      var y :| y in a && y.id == id;
      var i :| 0 <= i < |a| && a[i] == y;
      assert b[i] in b;
    }
    forall id | id in Ids(b) ensures id in Ids(a) {
      var y :| y in b && y.id == id;
      var i :| 0 <= i < |b| && b[i] == y;
      assert a[i] in a;
    }
  }

  /** Replacing the entry of an id that is present by a comment with that
      id leaves the same ids and puts the comment in the list. */
  lemma ReplacePresentId(entries: seq<Comment>, c: Comment)
    requires c.id in Ids(entries)
    ensures Ids(ReplaceById(entries, c.id, c)) == Ids(entries)
    ensures c in ReplaceById(entries, c.id, c)
  {
    var r := ReplaceById(entries, c.id, c);
    SameIdsPointwise(r, entries);
    var x :| x in entries && x.id == c.id;
    var k :| 0 <= k < |entries| && entries[k] == x;
    assert r[k] == c;
  }

  /** Writing `c` into an insertion-ordered map keyed by id, whose values
      are `entries` in insertion order: an id already present keeps its
      place and takes the new value, a new id goes at the end. */
  function SetEntry(entries: seq<Comment>, c: Comment): (r: seq<Comment>)
    ensures UniqueIds(entries) ==> UniqueIds(r)
    ensures Ids(r) == Ids(entries) + {c.id}
    ensures c in r
    ensures c.id !in Ids(entries) ==>
      |r| == |entries| + 1 && r[..|entries|] == entries && r[|entries|] == c
    ensures c.id in Ids(entries) ==>
      |r| == |entries| &&
      forall i :: 0 <= i < |entries| ==> r[i] == if entries[i].id == c.id then c else entries[i]
  {
    if c.id in Ids(entries) then
      ReplacePresentId(entries, c);
      ReplaceById(entries, c.id, c)
    else
      assert (entries + [c])[|entries|] == c;
      entries + [c]
  }

  /** The tree's nodes: the values of a map keyed by id after writing every
      comment of `list` in order. There is one node per id, at the place
      where the id first occurs, holding the last comment with that id. */
  function Nodes(list: seq<Comment>): (r: seq<Comment>)
    ensures |r| <= |list|
    ensures UniqueIds(r)
    ensures Ids(r) == Ids(list)
    decreases |list|
  {
    if list == [] then []
    else
      var prefix := list[..|list| - 1];
      var last := list[|list| - 1];
      assert list == prefix + [last];
      assert Ids(list) == Ids(prefix) + {last.id};
      SetEntry(Nodes(prefix), last)
  }

  /** When no id repeats, the nodes are the comments, in list order. */
  lemma {:induction false} NodesOfUniqueIds(list: seq<Comment>)
    requires UniqueIds(list)
    ensures Nodes(list) == list
  {
    if list != [] {
      var prefix := list[..|list| - 1];
      var last := list[|list| - 1];
      assert list == prefix + [last];
      NodesOfUniqueIds(prefix);
      assert last.id !in Ids(prefix);
    }
  }

  /** Whether `list[i]` is the last comment of `list` with its id. */
  predicate LastWithItsId(list: seq<Comment>, i: int)
    requires 0 <= i < |list|
  {
    forall j :: i < j < |list| ==> list[j].id != list[i].id
  }

  /** Whether `c` is a comment of `list` that no later comment of `list`
      shares an id with. */
  predicate IsLastOfItsId(list: seq<Comment>, c: Comment)
  {
    exists i :: 0 <= i < |list| && list[i] == c && LastWithItsId(list, i)
  }

  /** Whether some comment with id `a` comes before every comment with id `b`:
      the first occurrence of `a` precedes the first occurrence of `b`. */
  predicate OccursFirst(list: seq<Comment>, a: int, b: int)
  {
    exists i :: 0 <= i < |list| && list[i].id == a &&
      forall j :: 0 <= j <= i ==> list[j].id != b
  }

  /** Position `k` after writing `c`: it holds `c` exactly when its id is
      `c`'s, otherwise the entry that was already there; a position past
      the old entries was added for a new id. */
  lemma SetEntryAt(n: seq<Comment>, c: Comment, k: int)
    requires 0 <= k < |SetEntry(n, c)|
    ensures SetEntry(n, c)[k].id == c.id ==> SetEntry(n, c)[k] == c
    ensures SetEntry(n, c)[k].id != c.id ==> k < |n| && SetEntry(n, c)[k] == n[k]
    ensures k < |n| ==> SetEntry(n, c)[k].id == n[k].id
    ensures k >= |n| ==> c.id !in Ids(n) && SetEntry(n, c)[k] == c
  {
    var r := SetEntry(n, c);
    if k < |n| {
      assert n[k] in n;
      if c.id !in Ids(n) {
        assert r[k] == r[..|n|][k] == n[k];
      }
    }
  }

  /** One step of `Nodes`: the last comment is written into the nodes of
      the rest. */
  lemma NodesUnfold(list: seq<Comment>)
    requires list != []
    ensures Nodes(list) == SetEntry(Nodes(list[..|list| - 1]), list[|list| - 1])
  {
  }

  /** Appending a comment with another id keeps `list[i]` the last with
      its id. */
  lemma LastWithItsIdSnoc(list: seq<Comment>, c: Comment, i: int)
    requires 0 <= i < |list| && LastWithItsId(list, i) && list[i].id != c.id
    ensures LastWithItsId(list + [c], i)
  {
  }

  /** Appending a comment keeps which of two ids occurs first. */
  lemma OccursFirstSnoc(list: seq<Comment>, c: Comment, a: int, b: int)
    requires OccursFirst(list, a, b)
    ensures OccursFirst(list + [c], a, b)
  {
    var i :| 0 <= i < |list| && list[i].id == a &&
      forall j :: 0 <= j <= i ==> list[j].id != b;
    assert (list + [c])[i].id == a;
  }

  /** An id already present occurs before one that is new at the end. */
  lemma OccursFirstNew(list: seq<Comment>, c: Comment, a: int)
    requires a in Ids(list) && c.id !in Ids(list)
    ensures OccursFirst(list + [c], a, c.id)
  {
    var x :| x in list && x.id == a;
    var i :| 0 <= i < |list| && list[i] == x;
    assert forall j :: 0 <= j <= i ==> (list + [c])[j] == list[j] && list[j] in list;
    assert (list + [c])[i].id == a;
  }

  /** The step of `NodeIsLastWithId`: writing the last comment of `list`
      into entries that are each the last of the rest with their id. */
  lemma LastWithIdStep(list: seq<Comment>, n: seq<Comment>, k: int)
    requires list != []
    requires 0 <= k < |SetEntry(n, list[|list| - 1])|
    requires k < |n| && SetEntry(n, list[|list| - 1])[k].id != list[|list| - 1].id ==>
      IsLastOfItsId(list[..|list| - 1], n[k])
    ensures IsLastOfItsId(list, SetEntry(n, list[|list| - 1])[k])
  {
    var prefix := list[..|list| - 1];
    var last := list[|list| - 1];
    assert list == prefix + [last];
    SetEntryAt(n, last, k);
    if SetEntry(n, last)[k].id == last.id {
      assert list[|prefix|] == SetEntry(n, last)[k] && LastWithItsId(list, |prefix|);
    } else {
      var i :| 0 <= i < |prefix| && prefix[i] == n[k] && LastWithItsId(prefix, i);
      LastWithItsIdSnoc(prefix, last, i);
      assert list[i] == SetEntry(n, last)[k];
    }
  }

  /** Each node holds the last comment of the list with that id: a later
      comment with the same id overwrites the map entry. */
  lemma {:induction false} NodeIsLastWithId(list: seq<Comment>, k: int)
    requires 0 <= k < |Nodes(list)|
    ensures IsLastOfItsId(list, Nodes(list)[k])
    decreases |list|
  {
    NodesUnfold(list);
    var prefix := list[..|list| - 1];
    if k < |Nodes(prefix)| && Nodes(list)[k].id != list[|list| - 1].id {
      NodeIsLastWithId(prefix, k);
    }
    LastWithIdStep(list, Nodes(prefix), k);
  }

  /** The step of `NodesInFirstOccurrenceOrder`: writing the last comment of
      `list` into entries ordered by first occurrence in the rest. */
  lemma FirstOccurrenceStep(list: seq<Comment>, n: seq<Comment>, a: int, b: int)
    requires list != []
    requires 0 <= a < b < |SetEntry(n, list[|list| - 1])|
    requires Ids(n) == Ids(list[..|list| - 1])
    requires b < |n| ==> OccursFirst(list[..|list| - 1], n[a].id, n[b].id)
    ensures OccursFirst(list, SetEntry(n, list[|list| - 1])[a].id, SetEntry(n, list[|list| - 1])[b].id)
  {
    var prefix := list[..|list| - 1];
    var last := list[|list| - 1];
    assert list == prefix + [last];
    SetEntryAt(n, last, a);
    SetEntryAt(n, last, b);
    if b < |n| {
      OccursFirstSnoc(prefix, last, n[a].id, n[b].id);
    } else {
      // `b` is the entry `last` added under a new key.
      assert n[a] in n;
      OccursFirstNew(prefix, last, n[a].id);
    }
  }

  /** Nodes are ordered by where their ids first occur in the list: a map
      entry keeps the place where its key was first written. */
  lemma {:induction false} NodesInFirstOccurrenceOrder(list: seq<Comment>, a: int, b: int)
    requires 0 <= a < b < |Nodes(list)|
    ensures OccursFirst(list, Nodes(list)[a].id, Nodes(list)[b].id)
    decreases |list|
  {
    NodesUnfold(list);
    var prefix := list[..|list| - 1];
    if b < |Nodes(prefix)| {
      NodesInFirstOccurrenceOrder(prefix, a, b);
    }
    FirstOccurrenceStep(list, Nodes(prefix), a, b);
  }

  /** The reply tree: the top-level nodes in order, and for each node, by
      its id, the nodes linked under it in order. */
  datatype Forest = Forest(roots: seq<Comment>, replies: map<int, seq<Comment>>)

  /** What the tree is: roots are the nodes at the top, and the replies of
      node `p` are the nodes whose parent id is `p`, in node order. */
  function TreeOf(list: seq<Comment>): Forest
  {
    var nodes := Nodes(list);
    Forest(Filter(nodes, IsTreeRoot), RepliesMap(nodes))
  }

  /** For each node id, the nodes linked under it, in node order. */
  function RepliesMap(nodes: seq<Comment>): map<int, seq<Comment>>
  {
    map p | p in Ids(nodes) :: Filter(nodes, ChildOf(p))
  }

  /** `replies` links the first `j` nodes under their parents. */
  ghost predicate LinkedUpTo(replies: map<int, seq<Comment>>, nodes: seq<Comment>, j: nat)
    requires j <= |nodes|
  {
    replies.Keys == Ids(nodes) &&
    forall k :: k in replies ==> replies[k] == Filter(nodes[..j], ChildOf(k))
  }

  /** Linking node `j` under its parent, when the parent is a node, keeps
      the links up to date; a node at the top or with a missing parent is
      linked nowhere. */
  lemma LinkStep(replies: map<int, seq<Comment>>, nodes: seq<Comment>, j: nat)
    requires j < |nodes|
    requires LinkedUpTo(replies, nodes, j)
    ensures var n := nodes[j];
            var r := if !IsTreeRoot(n) && n.parentCommentId.value in replies
                     then replies[n.parentCommentId.value := replies[n.parentCommentId.value] + [n]]
                     else replies;
            LinkedUpTo(r, nodes, j + 1)
  {
    var n := nodes[j];
    var r := if !IsTreeRoot(n) && n.parentCommentId.value in replies
             then replies[n.parentCommentId.value := replies[n.parentCommentId.value] + [n]]
             else replies;
    forall k | k in r ensures r[k] == Filter(nodes[..j + 1], ChildOf(k)) {
      FilterSnoc(nodes, j, ChildOf(k));
    }
  }

  /** One more comment writes one more entry into the map. */
  lemma NodesStep(list: seq<Comment>, i: nat)
    requires i < |list|
    ensures Nodes(list[..i + 1]) == SetEntry(Nodes(list[..i]), list[i])
  {
    assert list[..i + 1][..i] == list[..i];
  }

  /** One empty reply list per node. */
  ghost predicate EmptyReplies(replies: map<int, seq<Comment>>, nodes: seq<Comment>)
  {
    replies.Keys == Ids(nodes) && forall k :: k in replies ==> replies[k] == []
  }

  /** Writing a node and giving it an empty reply list keeps one empty
      reply list per node. */
  lemma EmptyRepliesStep(replies: map<int, seq<Comment>>, nodes: seq<Comment>, c: Comment)
    requires EmptyReplies(replies, nodes)
    ensures EmptyReplies(replies[c.id := []], SetEntry(nodes, c))
  {
  }

  /** Empty reply lists, one per node, link nothing yet. */
  lemma LinkedAtStart(replies: map<int, seq<Comment>>, nodes: seq<Comment>)
    requires EmptyReplies(replies, nodes)
    ensures LinkedUpTo(replies, nodes, 0)
  {
    assert nodes[..0] == [];
  }

  /** Where the second phase puts node `n`: at the top, at the end of its
      parent's replies, or (parent not a node) nowhere. */
  function Place(roots: seq<Comment>, replies: map<int, seq<Comment>>, n: Comment): (seq<Comment>, map<int, seq<Comment>>)
  {
    if IsTreeRoot(n) then (roots + [n], replies)
    else if n.parentCommentId.value in replies then
      (roots, replies[n.parentCommentId.value := replies[n.parentCommentId.value] + [n]])
    else (roots, replies)
  }

  /** The first `j` nodes are placed: the roots among them, in order, and
      each node's children among them, in order. */
  ghost predicate PlacedUpTo(roots: seq<Comment>, replies: map<int, seq<Comment>>, nodes: seq<Comment>, j: nat)
    requires j <= |nodes|
  {
    roots == Filter(nodes[..j], IsTreeRoot) && LinkedUpTo(replies, nodes, j)
  }

  lemma PlaceStep(roots: seq<Comment>, replies: map<int, seq<Comment>>, nodes: seq<Comment>, j: nat)
    requires j < |nodes| && PlacedUpTo(roots, replies, nodes, j)
    ensures PlacedUpTo(Place(roots, replies, nodes[j]).0, Place(roots, replies, nodes[j]).1, nodes, j + 1)
  {
    LinkStep(replies, nodes, j);
    FilterSnoc(nodes, j, IsTreeRoot);
  }

  /** Once every node is linked, the links are the reference replies. */
  lemma LinkedAll(replies: map<int, seq<Comment>>, nodes: seq<Comment>)
    requires LinkedUpTo(replies, nodes, |nodes|)
    ensures replies == RepliesMap(nodes)
  {
    assert nodes[..|nodes|] == nodes;
  }

  /** First phase of building the tree: one node per id, each with no
      replies yet. */
  method InitNodes(list: seq<Comment>) returns (nodes: seq<Comment>, replies: map<int, seq<Comment>>)
    ensures nodes == Nodes(list)
    ensures LinkedUpTo(replies, nodes, 0)
  {
    nodes := [];
    replies := map[];
    for i := 0 to |list|
      invariant nodes == Nodes(list[..i])
      invariant EmptyReplies(replies, nodes)
    {
      var c := list[i];
      NodesStep(list, i);
      EmptyRepliesStep(replies, nodes, c);
      nodes := SetEntry(nodes, c);
      replies := replies[c.id := []];
    }
    assert list[..|list|] == list;
    LinkedAtStart(replies, nodes);
  }

  /** Second phase: every node either goes to the top or is linked under
      its parent; a node whose parent is not a node is dropped. */
  method LinkParents(nodes: seq<Comment>, empty: map<int, seq<Comment>>)
    returns (roots: seq<Comment>, replies: map<int, seq<Comment>>)
    requires LinkedUpTo(empty, nodes, 0)
    ensures roots == Filter(nodes, IsTreeRoot)
    ensures replies == RepliesMap(nodes)
  {
    replies := empty;
    roots := [];
    assert nodes[..0] == [];
    for j := 0 to |nodes|
      invariant PlacedUpTo(roots, replies, nodes, j)
    {
      var node := nodes[j];
      PlaceStep(roots, replies, nodes, j);
      if !IsTreeRoot(node) {
        var parentId := node.parentCommentId.value;
        if parentId in replies {
          replies := replies[parentId := replies[parentId] + [node]];
        }
      } else {
        roots := roots + [node];
      }
    }
    assert nodes[..|nodes|] == nodes;
    LinkedAll(replies, nodes);
  }

  /** Build the reply tree from the flat list, in the two phases above. */
  method CommentTree(list: seq<Comment>) returns (f: Forest)
    ensures f == TreeOf(list)
  {
    var nodes, empty := InitNodes(list);
    var roots, replies := LinkParents(nodes, empty);
    f := Forest(roots, replies);
  }

  /** Where each node ends up: a node at the top is a root exactly once and
      nobody's reply; a node whose parent is a node is exactly once among
      that parent's replies and nowhere else; a node whose parent is not a
      node appears nowhere. */
  lemma TreePlacement(list: seq<Comment>, n: Comment)
    requires n in Nodes(list)
    ensures var t := TreeOf(list);
            IsTreeRoot(n) ==>
              multiset(t.roots)[n] == 1 && forall p :: p in t.replies ==> n !in t.replies[p]
    ensures var t := TreeOf(list);
            !IsTreeRoot(n) && n.parentCommentId.value in Ids(list) ==>
              && n !in t.roots
              && multiset(t.replies[n.parentCommentId.value])[n] == 1
              && forall p :: p in t.replies && p != n.parentCommentId.value ==> n !in t.replies[p]
    ensures var t := TreeOf(list);
            !IsTreeRoot(n) && n.parentCommentId.value !in Ids(list) ==>
              n !in t.roots && forall p :: p in t.replies ==> n !in t.replies[p]
  {
    var nodes := Nodes(list);
    UniqueIdsOnce(nodes, n);
    FilterCount(nodes, IsTreeRoot, n);
    if !IsTreeRoot(n) && n.parentCommentId.value in Ids(list) {
      FilterCount(nodes, ChildOf(n.parentCommentId.value), n);
    }
  }

  /** With no repeated ids the roots are exactly the top-level comments in
      list order, and each comment's replies are the comments naming it, in
      list order. */
  lemma TreeOfUniqueIds(list: seq<Comment>)
    requires UniqueIds(list)
    ensures TreeOf(list).roots == Filter(list, IsTreeRoot)
    ensures TreeOf(list).replies.Keys == Ids(list)
    ensures forall p :: p in Ids(list) ==> TreeOf(list).replies[p] == Filter(list, ChildOf(p))
  {
    NodesOfUniqueIds(list);
  }

  /** Adding a comment with a fresh id at either end keeps ids unique. */
  lemma FreshIdKeepsUnique(list: seq<Comment>, c: Comment)
    requires UniqueIds(list) && c.id !in Ids(list)
    ensures UniqueIds([c] + list) && UniqueIds(list + [c])
    ensures Ids([c] + list) == Ids(list) + {c.id} == Ids(list + [c])
  {
    assert forall i :: 0 <= i < |list| ==> list[i] in list;
  }

  /** A list with unique ids, with a fresh id added at either end, is its
      own node list. */
  lemma FreshInsertNodes(list: seq<Comment>, c: Comment)
    requires UniqueIds(list) && c.id !in Ids(list)
    ensures Nodes(list) == list && Nodes([c] + list) == [c] + list && Nodes(list + [c]) == list + [c]
  {
    FreshIdKeepsUnique(list, c);
    NodesOfUniqueIds(list);
    NodesOfUniqueIds([c] + list);
    NodesOfUniqueIds(list + [c]);
  }

  /** Putting a top-level node in front of the nodes puts it in front of
      the roots and leaves every node's replies as they were. */
  lemma PrependedRoot(nodes: seq<Comment>, c: Comment)
    requires IsTreeRoot(c)
    ensures Filter([c] + nodes, IsTreeRoot) == [c] + Filter(nodes, IsTreeRoot)
    ensures forall p :: p in Ids(nodes) ==> RepliesMap([c] + nodes)[p] == RepliesMap(nodes)[p]
  {
    FilterConcat([c], nodes, IsTreeRoot);
    assert [c][1..] == [];
    forall p | p in Ids(nodes) ensures RepliesMap([c] + nodes)[p] == RepliesMap(nodes)[p] {
      PrependedNonChild(nodes, c, p);
    }
  }

  /** A top-level node in front is nobody's child. */
  lemma PrependedNonChild(nodes: seq<Comment>, c: Comment, p: int)
    requires IsTreeRoot(c) && p in Ids(nodes)
    ensures p in Ids([c] + nodes)
    ensures Filter([c] + nodes, ChildOf(p)) == Filter(nodes, ChildOf(p))
  {
    var y :| y in nodes && y.id == p;
    assert y in [c] + nodes;
    FilterConcat([c], nodes, ChildOf(p));
    assert [c][1..] == [];
  }

  /** A top-level comment with a fresh id put in front of the list heads the
      roots and leaves the rest of the tree as it was. */
  lemma PrependRoot(list: seq<Comment>, c: Comment)
    requires UniqueIds(list) && c.id !in Ids(list) && IsTreeRoot(c)
    ensures TreeOf([c] + list).roots == [c] + TreeOf(list).roots
    ensures forall p :: p in Ids(list) ==> TreeOf([c] + list).replies[p] == TreeOf(list).replies[p]
  {
    FreshInsertNodes(list, c);
    PrependedRoot(list, c);
  }

  /** Appending a child of node `p` to the nodes appends it to the
      replies of `p`. */
  lemma AppendedChild(nodes: seq<Comment>, c: Comment, p: int)
    requires p in Ids(nodes) && p in Ids(nodes + [c]) && ChildOf(p)(c)
    ensures RepliesMap(nodes + [c])[p] == RepliesMap(nodes)[p] + [c]
  {
    FilterConcat(nodes, [c], ChildOf(p));
    assert [c][1..] == [];
  }

  /** A reply with a fresh id put at the end of the list, to a comment that
      is present, ends its parent's replies; the roots stay as they were. */
  lemma AppendReply(list: seq<Comment>, c: Comment)
    requires UniqueIds(list) && c.id !in Ids(list) && !IsTreeRoot(c)
    requires c.parentCommentId.value in Ids(list)
    ensures TreeOf(list + [c]).roots == TreeOf(list).roots
    ensures TreeOf(list + [c]).replies[c.parentCommentId.value] ==
            TreeOf(list).replies[c.parentCommentId.value] + [c]
  {
    FreshInsertNodes(list, c);
    assert TreeOf(list + [c]).roots == TreeOf(list).roots by {
      FilterConcat(list, [c], IsTreeRoot);
      assert [c][1..] == [];
    }
    FreshIdKeepsUnique(list, c);
    AppendedChild(list, c, c.parentCommentId.value);
  }

  /** The life of a top-level comment posted optimistically: the
      placeholder heads the roots at once; on success the server's comment
      takes that same place; on failure the tree is as it was before. */
  lemma OptimisticPostInTree(list: seq<Comment>, c: Comment, stored: Comment)
    requires UniqueIds(list) && c.id !in Ids(list) && IsTreeRoot(c)
    requires stored.id !in Ids(list) && IsTreeRoot(stored)
    ensures TreeOf([c] + list).roots == [c] + TreeOf(list).roots
    ensures TreeOf(ReplaceById([c] + list, c.id, stored)).roots == [stored] + TreeOf(list).roots
    ensures TreeOf(RemoveById([c] + list, c.id)) == TreeOf(list)
  {
    PrependRoot(list, c);
    InsertThenReplace(list, c, stored);
    PrependRoot(list, stored);
    InsertThenRemove(list, c);
  }

  // ---------------------------------------------------------------------
  // The comment box
  // ---------------------------------------------------------------------

  /** A comment as sent to the server. */
  datatype PostRequest = PostRequest(blogId: int, content: string, parentCommentId: Option<int>)

  class CommentBox {
    var blogId: int
    var userId: int
    var userName: string
    /** The text of the top-level comment being written. */
    var content: string
    /** The comments shown, including optimistic ones not yet confirmed. */
    var commentsState: seq<Comment>
    /** Every post request sent, oldest first. */
    var posts: seq<PostRequest>

    constructor (blogId: int, userId: int, userName: string)
      ensures this.blogId == blogId && this.userId == userId && this.userName == userName
      ensures content == [] && commentsState == [] && posts == []
    {
      this.blogId := blogId;
      this.userId := userId;
      this.userName := userName;
      content := [];
      commentsState := [];
      posts := [];
    }

    /** A fresh list arrived from the server and replaces the one shown. */
    method SyncComments(server: seq<Comment>)
      modifies this`commentsState
      ensures commentsState == server
    {
      commentsState := server;
    }

    /** The placeholder shown while a comment is being posted: its id is the
        negated current time, so it cannot clash with a server id. */
    function OptimisticComment(text: string, parent: Option<int>, now: int, createdAt: string): (c: Comment)
      reads this
      requires now > 0
      ensures c.id < 0 && c.id == -now
      ensures c.isOptimistic == Some(true) && c.lastUpdatedAt == None
      ensures c.parentCommentId == parent && c.content == text && c.blogId == blogId
      ensures c.userId == userId && c.userName == userName && c.createdAt == createdAt
    {
      Comment(-now, blogId, text, userId, userName, parent, createdAt, None, Some(true))
    }

    /** Post the top-level comment being written. Blank text does nothing;
        otherwise the trimmed text goes on top of the list as a placeholder,
        the input is cleared and the request is sent. */
    method OnPost(now: int, createdAt: string) returns (optimistic: Option<Comment>)
      requires now > 0
      modifies this`commentsState, this`content, this`posts
      ensures Trim(old(content)) == [] ==>
        optimistic == None && commentsState == old(commentsState) &&
        content == old(content) && posts == old(posts)
      ensures Trim(old(content)) != [] ==>
        && optimistic == Some(OptimisticComment(Trim(old(content)), None, now, createdAt))
        && commentsState == [optimistic.value] + old(commentsState)
        && content == []
        && posts == old(posts) + [PostRequest(blogId, Trim(old(content)), None)]
    {
      var text := Trim(content);
      if text == [] {
        return None;
      }
      var c := OptimisticComment(text, None, now, createdAt);
      commentsState := [c] + commentsState;
      content := [];
      posts := posts + [PostRequest(blogId, text, None)];
      optimistic := Some(c);
    }

    /** Post a reply to comment `parentCommentId`. Blank text does nothing;
        otherwise the trimmed reply goes at the end of the list. */
    method OnReply(parentCommentId: int, replyText: string, now: int, createdAt: string)
      returns (optimistic: Option<Comment>)
      requires now > 0
      modifies this`commentsState, this`posts
      ensures Trim(replyText) == [] ==>
        optimistic == None && commentsState == old(commentsState) && posts == old(posts)
      ensures Trim(replyText) != [] ==>
        && optimistic == Some(OptimisticComment(Trim(replyText), Some(parentCommentId), now, createdAt))
        && commentsState == old(commentsState) + [optimistic.value]
        && posts == old(posts) + [PostRequest(blogId, Trim(replyText), Some(parentCommentId))]
    {
      var text := Trim(replyText);
      if text == [] {
        return None;
      }
      var c := OptimisticComment(text, Some(parentCommentId), now, createdAt);
      commentsState := commentsState + [c];
      posts := posts + [PostRequest(blogId, text, Some(parentCommentId))];
      optimistic := Some(c);
    }

    /** Post a reply typed under a nested comment. The text is used as it
        is: it is neither trimmed nor checked for being blank. */
    method OnNestedReply(parentId: int, text: string, now: int, createdAt: string)
      returns (optimistic: Comment)
      requires now > 0
      modifies this`commentsState, this`posts
      ensures optimistic == OptimisticComment(text, Some(parentId), now, createdAt)
      ensures commentsState == old(commentsState) + [optimistic]
      ensures posts == old(posts) + [PostRequest(blogId, text, Some(parentId))]
    {
      optimistic := OptimisticComment(text, Some(parentId), now, createdAt);
      commentsState := commentsState + [optimistic];
      posts := posts + [PostRequest(blogId, text, Some(parentId))];
    }

    /** The server stored the comment: its copy replaces the placeholder. */
    method ConfirmPost(tempId: int, stored: Comment)
      modifies this`commentsState
      ensures commentsState == ReplaceById(old(commentsState), tempId, stored)
    {
      commentsState := ReplaceById(commentsState, tempId, stored);
    }

    /** Posting failed: the placeholder is removed. */
    method RollbackPost(tempId: int)
      modifies this`commentsState
      ensures commentsState == RemoveById(old(commentsState), tempId)
    {
      commentsState := RemoveById(commentsState, tempId);
    }
  }
}
