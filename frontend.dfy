/** The client's session and post state and the handlers that change it
    (the `App` component of src/App.tsx, without its rendering). Each awaited
    remote call becomes a parameter giving how that call settles; each
    handler is one atomic transition. */
module Frontend {
  import opened Wrappers
  import opened PostViews
  import opened Notices

  /** The vote argument the client sends: `{ Up: null }` or `{ Down: null }`. */
  datatype Vote = Up | Down

  /** Opaque handles for the foreign `AuthClient` object and the identity it reports. */
  datatype AuthClient = AuthClient(handle: nat)
  datatype Identity = Identity(handle: nat)

  /** The actor the handlers call through: the default `backend` actor, or
      one that `createActor` built for an identity. */
  datatype Actor = DefaultBackend | ActorFor(identity: Identity)

  datatype Request =
    | GetPosts
    | IsAnonymousAllowed
    | Insert(post: Post)
    | Remove(id: int)
    | CastVote(id: int, vote: Vote)

  /** A remote call: the actor it went through and what it asked for. */
  datatype Call = Call(actor: Actor, request: Request)

  class App {
    var posts: seq<Post>
    var content: string
    var authClient: Option<AuthClient>
    var isAuthEnabled: bool
    var isAuthenticated: bool
    var backendActor: Actor

    /** Every remote call the component issued, oldest first. */
    ghost var calls: seq<Call>
    /** Every error toast it showed, oldest first, as the text `msg` gave. */
    ghost var toasts: seq<Option<string>>

    /** Anonymous mode (auth disabled) is only ever entered with the session
        counted as authenticated, no auth client and the default actor. */
    ghost predicate Valid()
      reads this
    {
      !isAuthEnabled ==> isAuthenticated && authClient.None? && backendActor == DefaultBackend
    }

    /** The session part of the state. */
    function Session(): (bool, bool, Option<AuthClient>, Actor)
      reads this
    {
      (isAuthEnabled, isAuthenticated, authClient, backendActor)
    }

    /** `sortedPosts`: a copy of `posts` sorted by descending votes, stably. */
    function SortedPosts(): (r: seq<Post>)
      reads this
      ensures multiset(r) == multiset(posts)
      ensures VotesDescending(r)
      ensures forall v :: WithVotes(r, v) == WithVotes(posts, v)
    {
      SortByVotesPermutes(posts);
      SortByVotesSorted(posts);
      forall v ensures WithVotes(SortByVotes(posts), v) == WithVotes(posts, v) {
        SortByVotesStable(posts, v);
      }
      SortByVotes(posts)
    }

    /** Mounting the component: the initial state, then the effect that
        fetches the posts and asks the default actor whether anonymous
        writes are allowed. If they are, auth is disabled and the session
        counts as authenticated; if not, an auth client is created and
        `updateClient` adopts it. If the query, `AuthClient.create()` or the
        client's `isAuthenticated()` rejects, the rejection goes unhandled and
        the session stays as it started. */
    constructor Mount(fetched: Remote<seq<Post>>, anonymousAllowed: Remote<bool>,
                      created: Remote<AuthClient>, reported: Remote<bool>, identity: Identity)
      ensures Valid()
      ensures content == "" && toasts == []
      ensures posts == if fetched.Resolved? then fetched.value else []
      ensures calls == [Call(DefaultBackend, GetPosts), Call(DefaultBackend, IsAnonymousAllowed)]
      ensures anonymousAllowed == Resolved(true) ==>
        Session() == (false, true, None, DefaultBackend)
      ensures anonymousAllowed == Resolved(false) && created.Resolved? && reported.Resolved? ==>
        Session() == (true, reported.value, Some(created.value), ActorFor(identity))
      ensures anonymousAllowed == Resolved(false) && (created.Rejected? || reported.Rejected?) ==>
        Session() == (true, false, None, DefaultBackend)
      ensures anonymousAllowed.Rejected? ==>
        Session() == (true, false, None, DefaultBackend)
    {
      posts := [];
      content := "";
      authClient := None;
      isAuthEnabled := true;
      isAuthenticated := false;
      backendActor := DefaultBackend;
      calls := [];
      toasts := [];
      new;
      FetchPosts(fetched);
      calls := calls + [Call(DefaultBackend, IsAnonymousAllowed)];
      if anonymousAllowed.Resolved? {
        if anonymousAllowed.value {
          isAuthEnabled := false;
          isAuthenticated := true;
        } else if created.Resolved? {
          UpdateClient(created.value, reported, identity);
        }
      }
    }

    /** The text input's `onChange`: the content of the next post. */
    method SetContent(text: string)
      modifies this
      ensures content == text
      ensures posts == old(posts) && Session() == old(Session())
      ensures calls == old(calls) && toasts == old(toasts)
    {
      content := text;
    }

    /** `notify(TYPE)`: one error toast with the text `msg(TYPE)`. */
    method Notify(tag: string)
      modifies this
      ensures toasts == old(toasts) + [Msg(tag)]
      ensures posts == old(posts) && content == old(content) && Session() == old(Session())
      ensures calls == old(calls)
    {
      toasts := toasts + [Msg(tag)];
    }

    /** `updateClient(client)`: once `client.isAuthenticated()` resolves, the
        session takes the reported status, keeps the client, and swaps in an
        actor for its identity. If that call rejects, no setter runs. Its
        callers only reach it while auth is enabled. */
    method UpdateClient(client: AuthClient, reported: Remote<bool>, identity: Identity)
      requires Valid() && isAuthEnabled
      modifies this
      ensures Valid()
      ensures reported.Resolved? ==>
        Session() == (true, reported.value, Some(client), ActorFor(identity))
      ensures reported.Rejected? ==> Session() == old(Session())
      ensures posts == old(posts) && content == old(content)
      ensures calls == old(calls) && toasts == old(toasts)
    {
      if reported.Resolved? {
        isAuthenticated := reported.value;
        authClient := Some(client);
        backendActor := ActorFor(identity);
      }
    }

    /** `login()`: with an auth client, a successful login flow ends in
        `updateClient`; without one, or when the flow does not succeed,
        nothing changes. */
    method Login(succeeded: bool, reported: Remote<bool>, identity: Identity)
      requires Valid()
      modifies this
      ensures Valid()
      ensures old(authClient).Some? && succeeded && reported.Resolved? ==>
        Session() == (true, reported.value, old(authClient), ActorFor(identity))
      ensures old(authClient).None? || !succeeded || reported.Rejected? ==> Session() == old(Session())
      ensures posts == old(posts) && content == old(content)
      ensures calls == old(calls) && toasts == old(toasts)
    {
      if authClient.Some? && succeeded {
        UpdateClient(authClient.value, reported, identity);
      }
    }

    /** `logout()`: with an auth client, after its logout `updateClient`
        runs again on it; without one nothing changes. */
    method Logout(reported: Remote<bool>, identity: Identity)
      requires Valid()
      modifies this
      ensures Valid()
      ensures old(authClient).Some? && reported.Resolved? ==>
        Session() == (true, reported.value, old(authClient), ActorFor(identity))
      ensures old(authClient).None? || reported.Rejected? ==> Session() == old(Session())
      ensures posts == old(posts) && content == old(content)
      ensures calls == old(calls) && toasts == old(toasts)
    {
      if authClient.Some? {
        UpdateClient(authClient.value, reported, identity);
      }
    }

    /** `fetchPosts()`: the list the backend returns replaces `posts`
        wholesale; a failure is only logged. */
    method FetchPosts(fetched: Remote<seq<Post>>)
      modifies this
      ensures posts == if fetched.Resolved? then fetched.value else old(posts)
      ensures calls == old(calls) + [Call(backendActor, GetPosts)]
      ensures content == old(content) && Session() == old(Session()) && toasts == old(toasts)
    {
      calls := calls + [Call(backendActor, GetPosts)];
      if fetched.Resolved? {
        posts := fetched.value;
      }
    }

    /** `newPost()`: unauthenticated, it throws before any remote call and the
        catch shows NOT_AUTHENTICATED. Otherwise it inserts a post with the id
        drawn by `Math.floor(Math.random() * 1000)`, the current content and
        zero votes, and appends it only after the insert resolves; a failed
        insert changes nothing and shows nothing. */
    method NewPost(id: int, inserted: Remote<Option<Post>>)
      requires Valid()
      requires 0 <= id <= 999
      modifies this
      ensures Valid() && Session() == old(Session()) && content == old(content)
      ensures !old(isAuthenticated) ==>
        && posts == old(posts)
        && calls == old(calls)
        && toasts == old(toasts) + [Msg(NOT_AUTHENTICATED)]
      ensures old(isAuthenticated) ==>
        var post := Post(id, old(content), 0, None);
        && calls == old(calls) + [Call(backendActor, Insert(post))]
        && posts == (if inserted.Resolved? then old(posts) + [post] else old(posts))
        && toasts == old(toasts)
    {
      var failed := false;
      if !isAuthenticated {
        failed := true;
      } else {
        var post := Post(id, content, 0, None);
        calls := calls + [Call(backendActor, Insert(post))];
        if inserted.Resolved? {
          posts := posts + [post];
        } else {
          failed := true;
        }
      }
      if failed && !isAuthenticated {
        Notify(NOT_AUTHENTICATED);
      }
    }

    /** `handleRemove(postId)`: no local auth check. After the remote remove
        resolves, every entry with that id is filtered out; on failure the
        list stays and NOT_AUTHENTICATED is shown only when unauthenticated. */
    method HandleRemove(postId: int, removed: Remote<Option<Post>>)
      requires Valid()
      modifies this
      ensures Valid() && Session() == old(Session()) && content == old(content)
      ensures calls == old(calls) + [Call(backendActor, Remove(postId))]
      ensures removed.Resolved? ==> posts == WithoutId(old(posts), postId) && toasts == old(toasts)
      ensures removed.Rejected? ==> posts == old(posts)
      ensures removed.Rejected? && !isAuthenticated ==> toasts == old(toasts) + [Msg(NOT_AUTHENTICATED)]
      ensures removed.Rejected? && isAuthenticated ==> toasts == old(toasts)
    {
      calls := calls + [Call(backendActor, Remove(postId))];
      if removed.Resolved? {
        posts := WithoutId(posts, postId);
      } else if !isAuthenticated {
        Notify(NOT_AUTHENTICATED);
      }
    }

    /** `handleVote(postId, vote)`: unauthenticated, it throws before any
        remote call and shows NOT_AUTHENTICATED. Otherwise it casts the vote;
        a failure shows ALREADY_VOTED. After a success the reply is spread
        into the matching entries (their votes do not change) and
        `fetchPosts` runs, whose result, when there is one, replaces the list. */
    method HandleVote(postId: int, vote: Vote, reply: Remote<Option<Post>>, refreshed: Remote<seq<Post>>)
      requires Valid()
      modifies this
      ensures Valid() && Session() == old(Session()) && content == old(content)
      ensures !old(isAuthenticated) ==>
        && posts == old(posts)
        && calls == old(calls)
        && toasts == old(toasts) + [Msg(NOT_AUTHENTICATED)]
      ensures old(isAuthenticated) && reply.Rejected? ==>
        && posts == old(posts)
        && calls == old(calls) + [Call(backendActor, CastVote(postId, vote))]
        && toasts == old(toasts) + [Msg(ALREADY_VOTED)]
      ensures old(isAuthenticated) && reply.Resolved? ==>
        && posts == (if refreshed.Resolved? then refreshed.value
                     else MergeVote(old(posts), postId, reply.value))
        && calls == old(calls) + [Call(backendActor, CastVote(postId, vote)), Call(backendActor, GetPosts)]
        && toasts == old(toasts)
    {
      var failed := false;
      if !isAuthenticated {
        failed := true;
      } else {
        calls := calls + [Call(backendActor, CastVote(postId, vote))];
        if reply.Resolved? {
          posts := MergeVote(posts, postId, reply.value);
          FetchPosts(refreshed);
        } else {
          failed := true;
        }
      }
      if failed {
        if !isAuthenticated {
          Notify(NOT_AUTHENTICATED);
        } else {
          Notify(ALREADY_VOTED);
        }
      }
    }
  }

  /** In a deployment that allows anonymous writes, a post made right after
      mounting is appended with zero votes; login and logout do nothing. */
  method AnonymousPostScenario(fetched: seq<Post>, created: AuthClient, identity: Identity)
  {
    var app := new App.Mount(Resolved(fetched), Resolved(true), Resolved(created), Resolved(false), identity);
    app.SetContent("hello");
    app.NewPost(42, Resolved(None));
    assert app.posts == fetched + [Post(42, "hello", 0, None)];
    app.Login(true, Resolved(true), identity);
    app.Logout(Resolved(false), identity);
    assert !app.isAuthEnabled && app.isAuthenticated;
    assert app.toasts == [];
  }

  /** Where login is required and the session is not signed in, neither a
      post nor a vote reaches the backend, and each shows NOT_AUTHENTICATED. */
  method LoginRequiredScenario(fetched: seq<Post>, created: AuthClient, identity: Identity)
  {
    var app := new App.Mount(Resolved(fetched), Resolved(false), Resolved(created), Resolved(false), identity);
    var before := app.calls;
    app.NewPost(7, Resolved(None));
    app.HandleVote(7, Up, Resolved(None), Resolved([]));
    assert app.calls == before && app.posts == fetched;
    assert app.toasts == [Some(NOT_LOGGED_IN_TEXT), Some(NOT_LOGGED_IN_TEXT)];
  }

  /** Signed in, a vote that succeeds and a second one that the backend
      rejects: the second shows ALREADY_VOTED. */
  method RepeatedVoteScenario(fetched: seq<Post>, created: AuthClient, identity: Identity, after: seq<Post>)
  {
    var app := new App.Mount(Resolved(fetched), Resolved(false), Resolved(created), Resolved(true), identity);
    app.HandleVote(42, Down, Resolved(None), Resolved(after));
    assert app.posts == after && app.toasts == [];
    app.HandleVote(42, Down, Rejected, Resolved(after));
    assert app.posts == after && app.toasts == [Some(ALREADY_VOTED_TEXT)];
  }
}
