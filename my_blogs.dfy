/** The signed-in user's own blogs, with like/dislike reactions applied
    optimistically: the counters change at once, the reaction request goes
    out, and its answer either overwrites the blog with the server's values
    or puts back the values saved before the change. */
module MyBlogs {
  import opened Models

  /** 1 when `b` holds, 0 otherwise. */
  function Ind(b: bool): int { if b then 1 else 0 }

  /** Pressing the button of the reaction already chosen withdraws it;
      pressing another one switches to it. */
  function Toggle(prev: ReactionType, requested: ReactionType): (next: ReactionType)
    ensures next == Null <==> prev == requested || requested == Null
    ensures next != Null ==> next == requested
  {
    if prev == requested then Null else requested
  }

  /** A blog's counters agree with its own reaction: a liked blog has at
      least its user's like, a disliked one at least its user's dislike. */
  predicate CountsCover(reaction: ReactionType, like: int, dislike: int)
  {
    like >= Ind(reaction == Liked) && dislike >= Ind(reaction == Disliked)
  }

  /** The counters after moving from `prev` to `next`: the counter of the
      reaction left loses one, the counter of the reaction taken gains one. */
  function Recount(prev: ReactionType, next: ReactionType, like: int, dislike: int): (c: (int, int))
    ensures CountsCover(prev, like, dislike) ==> CountsCover(next, c.0, c.1)
    ensures c.0 + c.1 == like + dislike - Ind(prev != Null) + Ind(next != Null)
    ensures prev == next ==> c == (like, dislike)
  {
    (like - Ind(prev == Liked) + Ind(next == Liked),
     dislike - Ind(prev == Disliked) + Ind(next == Disliked))
  }

  /** The counters stepped down for the reaction left and up for the one
      taken, one adjustment at a time. */
  method AdjustCounters(prev: ReactionType, next: ReactionType, prevLike: int, prevDislike: int)
    returns (like: int, dislike: int)
    ensures (like, dislike) == Recount(prev, next, prevLike, prevDislike)
  {
    like := prevLike;
    dislike := prevDislike;
    if prev == Liked { like := like - 1; }
    if prev == Disliked { dislike := dislike - 1; }
    if next == Liked { like := like + 1; }
    if next == Disliked { dislike := dislike + 1; }
  }

  /** Reacting twice with the same button from no reaction, or from that
      very reaction, gives back the reaction and both counters. */
  lemma ToggleTwiceRestores(prev: ReactionType, requested: ReactionType, like: int, dislike: int)
    requires prev == Null || prev == requested
    ensures Toggle(Toggle(prev, requested), requested) == prev
    ensures var mid := Toggle(prev, requested);
            var c := Recount(prev, mid, like, dislike);
            Recount(mid, prev, c.0, c.1) == (like, dislike)
  {
  }

  /** The first blog with the given id, if any. */
  function Find(items: seq<Blog>, id: int): (r: Option<Blog>)
    ensures r.None? <==> forall i :: 0 <= i < |items| ==> items[i].id != id
    ensures r.Some? ==> exists i :: 0 <= i < |items| && items[i] == r.value && r.value.id == id &&
                                    forall j :: 0 <= j < i ==> items[j].id != id
  {
    if items == [] then None
    else if items[0].id == id then Some(items[0])
    else
      var r := Find(items[1..], id);
      assert r.Some? ==> exists i :: 1 <= i < |items| && items[i] == r.value && r.value.id == id &&
                                     forall j :: 1 <= j < i ==> items[j].id != id;
      r
  }

  /** Every blog with the given id gets the reaction and counters given;
      every other blog, and the order, stay as they were. */
  function SetReaction(items: seq<Blog>, id: int, reaction: ReactionType, like: int, dislike: int): (r: seq<Blog>)
    ensures |r| == |items|
    ensures forall i :: 0 <= i < |items| && items[i].id != id ==> r[i] == items[i]
    ensures forall i :: 0 <= i < |items| && items[i].id == id ==>
      r[i] == items[i].(userReaction := reaction, likeCounts := like, dislikeCounts := dislike)
  {
    if items == [] then []
    else
      var b := items[0];
      [if b.id == id then b.(userReaction := reaction, likeCounts := like, dislikeCounts := dislike) else b]
        + SetReaction(items[1..], id, reaction, like, dislike)
  }

  /** The same update applied to the page held by a successful state; any
      other state is left alone. */
  function WithReaction(s: LoadState<BlogPage>, id: int, reaction: ReactionType, like: int, dislike: int): (r: LoadState<BlogPage>)
    ensures !s.Success? ==> r == s
    ensures s.Success? ==> r.Success? && r.data == s.data.(items := SetReaction(s.data.items, id, reaction, like, dislike))
  {
    if s.Success? then Success(s.data.(items := SetReaction(s.data.items, id, reaction, like, dislike)))
    else s
  }

  /** Only the last overwrite of a blog's reaction fields is visible: after
      several confirmations the blog holds what the last one reported. */
  lemma {:induction false} LastWriteWins(items: seq<Blog>, id: int,
                                         r1: ReactionType, l1: int, d1: int,
                                         r2: ReactionType, l2: int, d2: int)
    ensures SetReaction(SetReaction(items, id, r1, l1, d1), id, r2, l2, d2) == SetReaction(items, id, r2, l2, d2)
  {
    if items != [] {
      LastWriteWins(items[1..], id, r1, l1, d1, r2, l2, d2);
    }
  }

  /** Writing back a blog's own values changes nothing when it is the only
      blog with that id. */
  lemma {:induction false} RestoreOwnValues(items: seq<Blog>, k: nat)
    requires k < |items|
    requires forall j :: 0 <= j < |items| && j != k ==> items[j].id != items[k].id
    ensures SetReaction(items, items[k].id, items[k].userReaction, items[k].likeCounts, items[k].dislikeCounts) == items
  {
    var b := items[k];
    var r := SetReaction(items, b.id, b.userReaction, b.likeCounts, b.dislikeCounts);
    assert forall i :: 0 <= i < |items| ==> r[i] == items[i] by {
      forall i | 0 <= i < |items| ensures r[i] == items[i] {
        if i == k {
          assert items[i].(userReaction := b.userReaction, likeCounts := b.likeCounts, dislikeCounts := b.dislikeCounts) == b;
        }
      }
    }
  }

  /** The values saved before an optimistic change, and the request sent. */
  datatype Snapshot = Snapshot(blogId: int, reaction: ReactionType, like: int, dislike: int)

  /** A reaction request as sent to the server. */
  datatype ReactRequest = ReactRequest(blogId: int, reaction: ReactionType)

  /** The server's answer to a reaction request. */
  datatype ReactResponse = ReactResponse(like: int, dislike: int, userReaction: ReactionType)

  /** With unique ids, a failed confirmation leaves the page exactly as it
      was before the optimistic change, whatever that change wrote. */
  lemma RollbackIsExact(s: LoadState<BlogPage>, k: nat, reaction: ReactionType, like: int, dislike: int)
    requires s.Success? && k < |s.data.items|
    requires forall j :: 0 <= j < |s.data.items| && j != k ==> s.data.items[j].id != s.data.items[k].id
    ensures var b := s.data.items[k];
            WithReaction(WithReaction(s, b.id, reaction, like, dislike), b.id, b.userReaction, b.likeCounts, b.dislikeCounts) == s
  {
    var items := s.data.items;
    var b := items[k];
    LastWriteWins(items, b.id, reaction, like, dislike, b.userReaction, b.likeCounts, b.dislikeCounts);
    RestoreOwnValues(items, k);
  }

  /** Every blog on a loaded page has counters covering its own reaction
      (so, in particular, no counter is negative). */
  predicate Covered(s: LoadState<BlogPage>)
  {
    s.Success? ==> forall i :: 0 <= i < |s.data.items| ==>
      CountsCover(s.data.items[i].userReaction, s.data.items[i].likeCounts, s.data.items[i].dislikeCounts)
  }

  /** The blog found on a covered page has counters covering its reaction. */
  lemma FoundIsCovered(s: LoadState<BlogPage>, id: int)
    requires Covered(s) && s.Success? && Find(s.data.items, id).Some?
    ensures var b := Find(s.data.items, id).value;
            CountsCover(b.userReaction, b.likeCounts, b.dislikeCounts)
  {
    var b := Find(s.data.items, id).value;
    var k :| 0 <= k < |s.data.items| && s.data.items[k] == b;
  }

  /** The optimistic step keeps every counter covering its reaction, and so
      never drives a counter below zero. */
  lemma OptimisticKeepsCovered(s: LoadState<BlogPage>, id: int, prev: ReactionType, requested: ReactionType, like: int, dislike: int)
    requires Covered(s) && CountsCover(prev, like, dislike)
    ensures var next := Toggle(prev, requested);
            var c := Recount(prev, next, like, dislike);
            Covered(WithReaction(s, id, next, c.0, c.1))
    ensures var c := Recount(prev, Toggle(prev, requested), like, dislike);
            c.0 >= 0 && c.1 >= 0
  {
  }

  /** The page of the user's blogs and the reaction workflow over it. */
  class MyBlogsView {
    var blogState: LoadState<BlogPage>
    var pageNumber: int
    var pageSize: int
    var requests: seq<PageRequest>
    /** Meant to hold back server updates while a reaction is in flight;
        nothing ever sets it, so it stays false. */
    var reacting: bool
    var hasInitialLoad: bool
    /** Every reaction request sent, oldest first. */
    var sent: seq<ReactRequest>

    constructor ()
      ensures blogState == Loading && pageNumber == 1 && pageSize == 6
      ensures requests == [PageRequest(1, 6)] && !reacting && !hasInitialLoad && sent == []
    {
      blogState := Loading;
      pageNumber := 1;
      pageSize := 6;
      requests := [PageRequest(1, 6)];
      reacting := false;
      hasInitialLoad := false;
      sent := [];
    }

    /** The blogs on show: the page's items once loaded, none otherwise. */
    function Blogs(): (r: seq<Blog>)
      reads this
      ensures blogState.Success? ==> r == blogState.data.items
      ensures !blogState.Success? ==> r == []
    {
      if blogState.Success? then blogState.data.items else []
    }

    function TotalPages(): (n: int)
      reads this
      ensures blogState.Success? ==> n == blogState.data.totalPages
      ensures !blogState.Success? ==> n == 0
    {
      if blogState.Success? then blogState.data.totalPages else 0
    }

    /** Go to `page`; asking for the page already shown does nothing. */
    method LoadPage(page: int)
      modifies this`pageNumber, this`requests
      ensures page == old(pageNumber) ==> pageNumber == old(pageNumber) && requests == old(requests)
      ensures page != old(pageNumber) ==>
        pageNumber == page && requests == old(requests) + [PageRequest(page, pageSize)]
    {
      if page == pageNumber {
        return;
      }
      pageNumber := page;
      requests := requests + [PageRequest(page, pageSize)];
    }

    /** A state emitted by the fetch pipeline. Errors always get through;
        "loading" only before the first page arrived, so later page changes
        keep the old page on screen; a loaded page is held back while a
        reaction is in flight. */
    method SyncFromServer(res: LoadState<BlogPage>)
      modifies this`blogState, this`hasInitialLoad
      ensures res.Loading? ==>
        && hasInitialLoad == old(hasInitialLoad)
        && blogState == (if old(hasInitialLoad) then old(blogState) else Loading)
      ensures res.Error? ==> blogState == res && hasInitialLoad == old(hasInitialLoad)
      ensures res.Success? && reacting ==> blogState == old(blogState) && hasInitialLoad == old(hasInitialLoad)
      ensures res.Success? && !reacting ==> blogState == res && hasInitialLoad
    {
      if res.Loading? {
        if !hasInitialLoad {
          blogState := Loading;
        }
        return;
      }
      if res.Error? {
        blogState := res;
        return;
      }
      if reacting {
        return;
      }
      blogState := res;
      hasInitialLoad := true;
    }

    /** The optimistic step: find the blog, save its reaction and counters,
        work out the new reaction and counters, write them into the page and
        send the request. Nothing happens unless a page is loaded and holds
        a blog with that id. The result is what the answer's handlers need. */
    method ReactOptimistic(blogId: int, reaction: ReactionType) returns (pending: Option<Snapshot>)
      modifies this`blogState, this`sent
      ensures (old(blogState).Success? && Find(old(blogState).data.items, blogId).Some?) <==> pending.Some?
      ensures pending.None? ==> blogState == old(blogState) && sent == old(sent)
      ensures pending.Some? ==>
        var target := Find(old(blogState).data.items, blogId).value;
        var next := Toggle(target.userReaction, reaction);
        var counts := Recount(target.userReaction, next, target.likeCounts, target.dislikeCounts);
        && pending.value == Snapshot(blogId, target.userReaction, target.likeCounts, target.dislikeCounts)
        && blogState == WithReaction(old(blogState), blogId, next, counts.0, counts.1)
        && sent == old(sent) + [ReactRequest(blogId, next)]
      ensures Covered(old(blogState)) ==> Covered(blogState)
    {
      var state := blogState;
      if !state.Success? {
        return None;
      }
      var found := Find(state.data.items, blogId);
      if found.None? {
        return None;
      }
      var target := found.value;
      var prevReaction := target.userReaction;
      var prevLike := target.likeCounts;
      var prevDislike := target.dislikeCounts;
      var newReaction := Toggle(prevReaction, reaction);
      var like, dislike := AdjustCounters(prevReaction, newReaction, prevLike, prevDislike);
      if Covered(state) {
        FoundIsCovered(state, blogId);
        OptimisticKeepsCovered(state, blogId, prevReaction, reaction, prevLike, prevDislike);
      }
      blogState := WithReaction(blogState, blogId, newReaction, like, dislike);
      sent := sent + [ReactRequest(blogId, newReaction)];
      pending := Some(Snapshot(blogId, prevReaction, prevLike, prevDislike));
    }

    /** The server accepted the reaction: its counters and reaction replace
        the blog's, whatever the optimistic step wrote. */
    method ConfirmReaction(blogId: int, res: ReactResponse)
      modifies this`blogState
      ensures blogState == WithReaction(old(blogState), blogId, res.userReaction, res.like, res.dislike)
    {
      blogState := WithReaction(blogState, blogId, res.userReaction, res.like, res.dislike);
    }

    /** The reaction request failed: the saved values are written back. */
    method RollbackReaction(saved: Snapshot)
      modifies this`blogState
      ensures blogState == WithReaction(old(blogState), saved.blogId, saved.reaction, saved.like, saved.dislike)
    {
      blogState := WithReaction(blogState, saved.blogId, saved.reaction, saved.like, saved.dislike);
    }
  }
}
