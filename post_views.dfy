/** The pure list transforms of the client (src/App.tsx): the filter that
    `handleRemove` applies, the map that `handleVote` applies, and the
    vote-sorted copy `sortedPosts`. */
module PostViews {
  import opened Wrappers

  /** The client's `Post` record. `updatedPost` is the extra property that
      the vote merge spreads into an entry (`{ ...post, updated_post }`):
      `None` while the property is absent, otherwise `Some` of the candid
      `opt` reply of the vote call. */
  datatype Post = Post(id: int, content: string, votes: int, updatedPost: Option<Option<Post>>)

  /** `posts.filter((post) => post.id !== postId)`. */
  function WithoutId(posts: seq<Post>, id: int): (r: seq<Post>)
    ensures |r| <= |posts|
    ensures forall i :: 0 <= i < |r| ==> r[i].id != id && r[i] in posts
    ensures forall p :: p in posts && p.id != id ==> p in r
  {
    if posts == [] then []
    else (if posts[0].id != id then [posts[0]] else []) + WithoutId(posts[1..], id)
  }

  /** Filtering distributes over concatenation: the entries that remain keep
      their relative order. */
  lemma {:induction false} WithoutIdConcat(a: seq<Post>, b: seq<Post>, id: int)
    ensures WithoutId(a + b, id) == WithoutId(a, id) + WithoutId(b, id)
  {
    if a != [] {
      assert (a + b)[1..] == a[1..] + b;
      WithoutIdConcat(a[1..], b, id);
    } else {
      assert a + b == b;
    }
  }

  /** Filtering removes every copy of an entry with the id and keeps every
      copy of every other entry. */
  lemma {:induction false} WithoutIdCounts(posts: seq<Post>, id: int)
    ensures forall x :: multiset(WithoutId(posts, id))[x] == if x.id == id then 0 else multiset(posts)[x]
  {
    if posts != [] {
      WithoutIdCounts(posts[1..], id);
      assert posts == [posts[0]] + posts[1..];
      assert multiset(posts) == multiset([posts[0]]) + multiset(posts[1..]);
    }
  }

  /** A list holding no entry with the id is left as it is. */
  lemma {:induction false} WithoutIdAbsent(posts: seq<Post>, id: int)
    requires forall i :: 0 <= i < |posts| ==> posts[i].id != id
    ensures WithoutId(posts, id) == posts
  {
    if posts != [] {
      WithoutIdAbsent(posts[1..], id);
      assert posts == [posts[0]] + posts[1..];
    }
  }

  /** Removing the same id twice is the same as removing it once. */
  lemma WithoutIdIdempotent(posts: seq<Post>, id: int)
    ensures WithoutId(WithoutId(posts, id), id) == WithoutId(posts, id)
  {
    WithoutIdAbsent(WithoutId(posts, id), id);
  }

  /** `posts.map(...)` after a successful vote: every entry with the voted id
      gets the reply spread in as `updated_post`; no entry's id, content or
      votes change. */
  function MergeVote(posts: seq<Post>, postId: int, reply: Option<Post>): (r: seq<Post>)
    ensures |r| == |posts|
    ensures forall i :: 0 <= i < |r| ==>
      r[i].id == posts[i].id && r[i].content == posts[i].content && r[i].votes == posts[i].votes
    ensures forall i :: 0 <= i < |r| ==>
      r[i].updatedPost == if posts[i].id == postId then Some(reply) else posts[i].updatedPost
  {
    seq(|posts|, i requires 0 <= i < |posts| =>
      if posts[i].id == postId then posts[i].(updatedPost := Some(reply)) else posts[i])
  }

  /** The three fields of the `Post` interface, without the spread-in extra. */
  function Fields(p: Post): Post {
    Post(p.id, p.content, p.votes, None)
  }

  function AllFields(posts: seq<Post>): (r: seq<Post>)
    ensures |r| == |posts|
  {
    seq(|posts|, i requires 0 <= i < |posts| => Fields(posts[i]))
  }

  /** The merge is invisible through the `Post` interface. */
  lemma MergeVoteKeepsFields(posts: seq<Post>, postId: int, reply: Option<Post>)
    ensures AllFields(MergeVote(posts, postId, reply)) == AllFields(posts)
  {
    var r := MergeVote(posts, postId, reply);
    forall i | 0 <= i < |posts| ensures AllFields(r)[i] == AllFields(posts)[i] {
      assert Fields(r[i]) == Fields(posts[i]);
    }
  }

  /** Ordered by non-increasing vote count. */
  predicate VotesDescending(s: seq<Post>) {
    forall i, j :: 0 <= i < j < |s| ==> s[i].votes >= s[j].votes
  }

  /** The entries of `s` that have `v` votes, in their order in `s`. */
  function WithVotes(s: seq<Post>, v: int): (r: seq<Post>)
    ensures forall i :: 0 <= i < |r| ==> r[i].votes == v
  {
    if s == [] then [] else (if s[0].votes == v then [s[0]] else []) + WithVotes(s[1..], v)
  }

  lemma {:induction false} WithVotesConcat(a: seq<Post>, b: seq<Post>, v: int)
    ensures WithVotes(a + b, v) == WithVotes(a, v) + WithVotes(b, v)
  {
    if a != [] {
      assert (a + b)[1..] == a[1..] + b;
      WithVotesConcat(a[1..], b, v);
    } else {
      assert a + b == b;
    }
  }

  lemma WithVotesCons(x: Post, t: seq<Post>, v: int)
    ensures WithVotes([x] + t, v) == (if x.votes == v then [x] else []) + WithVotes(t, v)
  {
    assert ([x] + t)[1..] == t;
  }

  /** Inserts `p` in front of the first entry it does not outvote, that is,
      before every entry with as many votes as `p` or fewer. */
  function InsertByVotes(p: Post, s: seq<Post>): seq<Post> {
    if s == [] || p.votes >= s[0].votes then [p] + s
    else [s[0]] + InsertByVotes(p, s[1..])
  }

  /** `[...posts].sort((a, b) => b.votes - a.votes)`: a copy of the posts,
      sorted by descending votes with a stable sort (section 23.1.3.30 of
      ECMA-262 requires stability), written as an insertion sort. */
  function SortByVotes(s: seq<Post>): seq<Post> {
    if s == [] then [] else InsertByVotes(s[0], SortByVotes(s[1..]))
  }

  lemma {:induction false} InsertByVotesPermutes(p: Post, s: seq<Post>)
    ensures multiset(InsertByVotes(p, s)) == multiset([p] + s)
    ensures |InsertByVotes(p, s)| == |s| + 1
  {
    if s != [] && p.votes < s[0].votes {
      InsertByVotesPermutes(p, s[1..]);
      assert s == [s[0]] + s[1..];
    }
  }

  lemma {:induction false} InsertByVotesSorted(p: Post, s: seq<Post>)
    requires VotesDescending(s)
    ensures VotesDescending(InsertByVotes(p, s))
  {
    if s != [] && p.votes < s[0].votes {
      var t := s[1..];
      assert VotesDescending(t);
      InsertByVotesSorted(p, t);
      InsertByVotesPermutes(p, t);
      var r := InsertByVotes(p, t);
      forall j | 0 <= j < |r| ensures s[0].votes >= r[j].votes {
        assert r[j] in multiset(r);
        assert r[j] in multiset([p] + t);
        assert r[j] == p || r[j] in t;
      }
    }
  }

  lemma {:induction false} InsertByVotesStable(p: Post, s: seq<Post>, v: int)
    requires VotesDescending(s)
    ensures WithVotes(InsertByVotes(p, s), v) == WithVotes([p] + s, v)
  {
    if s != [] && p.votes < s[0].votes {
      var t := s[1..];
      assert VotesDescending(t);
      InsertByVotesStable(p, t, v);
      WithVotesCons(s[0], InsertByVotes(p, t), v);
      WithVotesCons(p, t, v);
      WithVotesCons(p, s, v);
      assert s == [s[0]] + t;
      WithVotesCons(s[0], t, v);
      var hp := if p.votes == v then [p] else [];
      var hs := if s[0].votes == v then [s[0]] else [];
      assert hp == [] || hs == [];
      assert hs + (hp + WithVotes(t, v)) == hp + (hs + WithVotes(t, v));
    }
  }

  /** The sorted copy is a permutation of the posts. */
  lemma {:induction false} SortByVotesPermutes(s: seq<Post>)
    ensures |SortByVotes(s)| == |s|
    ensures multiset(SortByVotes(s)) == multiset(s)
  {
    if s != [] {
      SortByVotesPermutes(s[1..]);
      InsertByVotesPermutes(s[0], SortByVotes(s[1..]));
      assert s == [s[0]] + s[1..];
    }
  }

  /** The sorted copy is ordered by non-increasing votes. */
  lemma {:induction false} SortByVotesSorted(s: seq<Post>)
    ensures VotesDescending(SortByVotes(s))
  {
    if s != [] {
      SortByVotesSorted(s[1..]);
      InsertByVotesSorted(s[0], SortByVotes(s[1..]));
    }
  }

  /** The sort is stable: entries with equal votes keep their order in `s`. */
  lemma {:induction false} SortByVotesStable(s: seq<Post>, v: int)
    ensures WithVotes(SortByVotes(s), v) == WithVotes(s, v)
  {
    if s != [] {
      SortByVotesStable(s[1..], v);
      SortByVotesSorted(s[1..]);
      InsertByVotesStable(s[0], SortByVotes(s[1..]), v);
      WithVotesConcat([s[0]], SortByVotes(s[1..]), v);
      WithVotesConcat([s[0]], s[1..], v);
      assert s == [s[0]] + s[1..];
    }
  }

  /** Sorted by votes plus stable determines the result: any two sequences
      ordered by non-increasing votes whose equal-vote runs agree are equal.
      So `SortByVotes` is the only result a stable sort may give. */
  lemma {:induction false} StableSortUnique(a: seq<Post>, b: seq<Post>)
    requires VotesDescending(a) && VotesDescending(b)
    requires forall v :: WithVotes(a, v) == WithVotes(b, v)
    ensures a == b
    decreases |a|
  {
    if a == [] || b == [] {
      var c := if a == [] then b else a;
      if c != [] {
        assert c == [c[0]] + c[1..];
        WithVotesCons(c[0], c[1..], c[0].votes);
      }
    } else {
      assert a == [a[0]] + a[1..] && b == [b[0]] + b[1..];
      HeadVotesAgree(a, b);
      WithVotesCons(a[0], a[1..], a[0].votes);
      WithVotesCons(b[0], b[1..], a[0].votes);
      assert WithVotes(a, a[0].votes) == WithVotes(b, a[0].votes);
      assert a[0] == b[0] by {
        assert WithVotes(a, a[0].votes)[0] == a[0];
        assert WithVotes(b, a[0].votes)[0] == b[0];
      }
      forall v ensures WithVotes(a[1..], v) == WithVotes(b[1..], v) {
        WithVotesCons(a[0], a[1..], v);
        WithVotesCons(b[0], b[1..], v);
        var h := if a[0].votes == v then [a[0]] else [];
        assert WithVotes(a, v) == WithVotes(b, v);
        assert h + WithVotes(a[1..], v) == h + WithVotes(b[1..], v);
        assert WithVotes(a[1..], v) == (h + WithVotes(a[1..], v))[|h|..];
        assert WithVotes(b[1..], v) == (h + WithVotes(b[1..], v))[|h|..];
      }
      assert VotesDescending(a[1..]) && VotesDescending(b[1..]);
      StableSortUnique(a[1..], b[1..]);
    }
  }

  /** A non-empty equal-vote run has a witness in the sequence. */
  lemma {:induction false} WithVotesMember(s: seq<Post>, v: int) returns (i: nat)
    requires WithVotes(s, v) != []
    ensures i < |s| && s[i].votes == v
    decreases |s|
  {
    if s[0].votes == v {
      i := 0;
    } else {
      var j := WithVotesMember(s[1..], v);
      i := j + 1;
    }
  }

  /** Two sorted sequences with the same equal-vote runs start with the same vote count. */
  lemma HeadVotesAgree(a: seq<Post>, b: seq<Post>)
    requires a != [] && b != []
    requires VotesDescending(a) && VotesDescending(b)
    requires forall v :: WithVotes(a, v) == WithVotes(b, v)
    ensures a[0].votes == b[0].votes
  {
    assert a == [a[0]] + a[1..];
    assert b == [b[0]] + b[1..];
    WithVotesCons(a[0], a[1..], a[0].votes);
    WithVotesCons(b[0], b[1..], b[0].votes);
    assert WithVotes(b, a[0].votes) == WithVotes(a, a[0].votes);
    assert WithVotes(a, b[0].votes) == WithVotes(b, b[0].votes);
    var j := WithVotesMember(b, a[0].votes);
    var i := WithVotesMember(a, b[0].votes);
    assert b[0].votes >= b[j].votes;
    assert a[0].votes >= a[i].votes;
  }
}
