# Simple Reddit clone: post store and client synchronisation

This project models the two pieces of logic in the simple Reddit clone, and
proves properties about them.

- **The backend canister's post store.** It maps `u32` post ids to `Item { id, content, votes }` records
  (`ITEMS`, a stable B-tree map). It offers the queries `get` and `get_posts` and the updates `insert`,
  `vote` and `remove` (module `Backend`, class `Backend.PostStore`, whose field `items` is a
  `map<u32, Item>`). The invariant every update keeps is that each item is stored under its own id.
  `get_posts` returns the values in ascending key order. This is captured by the predicate
  `InKeyOrder`, which describes exactly one sequence (`InKeyOrderUnique`).
- **The client component.** Without React, the `App` component is a state machine over `posts`, `content`,
  `authClient`, `isAuthEnabled`, `isAuthenticated` and `backendActor` (class `Frontend.App`). Its
  handlers are `fetchPosts`, `newPost`, `handleRemove`, `handleVote`, `updateClient`, `login`,
  `logout` and the mount effect. Each becomes one method. How each awaited remote call settles is a
  parameter of type `Remote<T>`: `Resolved(value)` or `Rejected`. Two ghost logs let the contracts
  say what is observable:
  - `calls` records every remote call, with the actor it went through;
  - `toasts` records every error toast, as the text `msg` produced for it.
- **The pure parts of the client:**
  - the `filter` of `handleRemove` and the `map` of `handleVote` (module `PostViews`);
  - the stable vote sort behind `sortedPosts` (module `PostViews`);
  - `msg` (module `Notices`);
  - `getIIUrl` and its first-occurrence `String.prototype.replace` (module `IdentityProvider`).

The model follows what the code does, including:
- `newPost` appends only after the insert resolves.
- The vote merge `{ ...post, updated_post }` adds a property and leaves `votes` as it was. Only the
  `fetchPosts` that follows changes vote counts.
- `getIIUrl` returns `undefined` off the local network.

The scenario methods `Frontend.AnonymousPostScenario`, `Frontend.LoginRequiredScenario` and
`Frontend.RepeatedVoteScenario` check that the handlers' contracts are enough to derive the
expected end-to-end behaviour. `Backend.RemoveTwice` does the same for the store.

Other behaviour of the code:
- A failed insert leaves the list as it was, and shows no toast to a signed-in user.
- The backend's `remove` of an absent key does not trap. It returns `None`, so the client's call
  resolves and the filter leaves the list unchanged.
- The mount effect marks an anonymous-write deployment by setting `isAuthEnabled` to false and
  `isAuthenticated` to true; nothing sets `isAuthEnabled` back.
- After logout, `updateClient` takes whatever status the auth client then reports.
- The post id is drawn at random from 0..999 with no collision check.

## Model

| member | source | states |
|---|---|---|
| `Backend.PostStore.constructor` | backend/src/lib.rs:53-57 | on a fresh install the store starts as an empty map, which satisfies the id-equals-key invariant (after an upgrade `init` reloads the existing map, which is not modelled) |
| `Backend.PostStore.Get` | backend/src/lib.rs:61-64 | returns `Some` exactly when the key is stored, and then the stored item; the map is not changed |
| `Backend.PostStore.GetPosts` | backend/src/lib.rs:66-69 | returns the stored items one per key in strictly ascending key order, each equal to the item under its key, and no id that is not a key; the map is not changed |
| `Backend.InKeyOrderUnique` | backend/src/lib.rs:66-69 | two listings that both satisfy the ascending-key-order description of one map are equal, so `get_posts` has exactly one correct result |
| `Backend.InKeyOrderLength` | backend/src/lib.rs:66-69 | an in-order listing has as many entries as the map has keys |
| `Backend.InKeyOrderUncons` | backend/src/lib.rs:66-69 | the first entry of an in-order listing has the least key, and the rest lists the map without that key in order |
| `Backend.PostStore.Insert` | backend/src/lib.rs:71-76 | returns the previous value at `value.id` (None if absent); afterwards `get(value.id)` is `Some(value)`, every other key is unchanged, and the id-equals-key invariant still holds |
| `Backend.PostStore.Vote` | backend/src/lib.rs:78-87 | on a stored key (absent traps at `unwrap`) with an in-range `i32` sum, returns `Some` of the old item with the same id and content and `votes + increment`; that item replaces the stored one and no other key changes |
| `Backend.PostStore.Remove` | backend/src/lib.rs:89-92 | returns what was stored at the key (None if absent); afterwards the key is absent and every other key is unchanged |
| `Backend.RemoveTwice` | backend/src/lib.rs:89-92 | the first `remove` returns what was stored; a second `remove` of the same key returns None and leaves the map as the first left it |
| `PostViews.WithoutId` | src/App.tsx:111 | the filtered list has no entry with the id, contains only entries of the original, and contains every original entry whose id differs |
| `PostViews.WithoutIdConcat` | src/App.tsx:111 | filtering distributes over concatenation, so the remaining entries keep their relative order |
| `PostViews.WithoutIdCounts` | src/App.tsx:111 | each entry with the id occurs zero times afterwards; every other entry occurs as often as before |
| `PostViews.WithoutIdAbsent` | src/App.tsx:111 | a list with no entry of that id is returned unchanged |
| `PostViews.WithoutIdIdempotent` | src/App.tsx:111 | filtering the same id twice equals filtering it once |
| `PostViews.MergeVote` | src/App.tsx:143-150 | the merged list has the same length, and at every position the same id, content and votes; matching entries gain the `updated_post` property holding the reply, others are untouched |
| `PostViews.MergeVoteKeepsFields` | src/App.tsx:143-150 | seen through the three `Post` fields, the merged list equals the original |
| `PostViews.InsertByVotesPermutes` | src/App.tsx:195 | one insertion step of the sort adds exactly the inserted entry |
| `PostViews.InsertByVotesSorted` | src/App.tsx:195 | one insertion step keeps a vote-descending list vote-descending |
| `PostViews.InsertByVotesStable` | src/App.tsx:195 | one insertion step places the entry before every entry of equal votes, as the inserted entry came first |
| `PostViews.SortByVotesPermutes` | src/App.tsx:195 | the sorted copy is a permutation of the posts (same length, same multiset) |
| `PostViews.SortByVotesSorted` | src/App.tsx:195 | the sorted copy is ordered by non-increasing votes (comparator `b.votes - a.votes`) |
| `PostViews.SortByVotesStable` | src/App.tsx:195 | for each vote count, the entries with that count appear in the sorted copy in the same order as in the posts |
| `PostViews.StableSortUnique` | src/App.tsx:195 | any vote-descending list with the same equal-vote runs equals the sorted copy, so this is the only result a stable sort may produce |
| `Frontend.App.SortedPosts` | src/App.tsx:195 | `sortedPosts` is a permutation of `posts`, vote-descending, stable on ties; it is a function of the state and reorders nothing |
| `Notices.Msg` | src/App.tsx:179-186 | `NOT_AUTHENTICATED` gives "You are not logged in", `ALREADY_VOTED` gives "You have already voted on this post", every other tag gives undefined |
| `IdentityProvider.ReplaceFirstAt` | src/App.tsx:37 | `replace` with a string pattern substitutes the first occurrence only, leaving text before and after it intact |
| `IdentityProvider.ReplaceFirstAbsent` | src/App.tsx:37 | `replace` leaves a string without the pattern unchanged |
| `IdentityProvider.GetIIUrl` | src/App.tsx:33-44 | a URL is returned exactly when `DFX_NETWORK` is `local`; otherwise the result is undefined |
| `IdentityProvider.GetIIUrlGitpod` | src/App.tsx:35-37 | local with workspace URL `https://<host>`: the result is `https://4943-<host>?canisterId=<id>#authorize` |
| `IdentityProvider.GetIIUrlGitpodVerbatim` | src/App.tsx:35-37 | local with a workspace URL that does not contain `https://`: the URL is spliced in unchanged |
| `IdentityProvider.GetIIUrlLocalhost` | src/App.tsx:35-40 | local with no or an empty workspace URL: the result is `http://localhost:4943?canisterId=<id>#authorize` |
| `IdentityProvider.GetIIUrlOffLocalUndefined` | src/App.tsx:41-43 | for network `ic` the function as written gives undefined while the intended one gives the mainnet URL |
| `IdentityProvider.IntendedIIUrl` | src/App.tsx:41-43 | the corrected function: the same URL as `getIIUrl` locally, `https://identity.ic0.app/#authorize` elsewhere |
| `Frontend.App.Mount` | src/App.tsx:121-136 | initial state of the `useState` hooks (no posts, empty content, auth enabled, not authenticated, default actor), then the mount effect. On the effect: the fetched list (if any) becomes `posts`; `is_anonymous_allowed` always goes through the default actor; if allowed, auth is disabled and the session is authenticated; if not and `AuthClient.create()` and `isAuthenticated()` resolve, `updateClient` adopts the created client with its reported status; if the query, the creation or the status call rejects, the session stays as it started |
| `Frontend.App.SetContent` | src/App.tsx:210-214 | only `content` changes |
| `Frontend.App.Notify` | src/App.tsx:188-192 | exactly one toast, with text `msg(TYPE)`, is added; nothing else changes |
| `Frontend.App.UpdateClient` | src/App.tsx:162-177 | when `client.isAuthenticated()` resolves, `isAuthenticated` becomes the reported status, the client is kept, the actor becomes one for the client's identity; when it rejects, the session is unchanged; posts, calls and toasts are unchanged |
| `Frontend.App.Login` | src/App.tsx:59-68 | with an auth client, a successful flow and a resolved status, the session is that of `updateClient` on it; with no auth client (anonymous mode), no success or a rejected status call, nothing changes |
| `Frontend.App.Logout` | src/App.tsx:70-75 | with an auth client and a resolved status, the session is that of `updateClient` on it; without one (anonymous mode) or with a rejected status call, nothing changes; `isAuthEnabled` never changes |
| `Frontend.App.FetchPosts` | src/App.tsx:77-84 | one `get_posts` call through the current actor; on success `posts` becomes exactly the returned list, on failure it is unchanged; no toast |
| `Frontend.App.NewPost` | src/App.tsx:86-106 | not authenticated: no remote call, posts unchanged, exactly one NOT_AUTHENTICATED toast. Authenticated: one insert of `{id, content, votes: 0}` with `0 <= id <= 999`; on success the post is appended at the end after the old entries, on failure posts are unchanged and no toast is shown |
| `Frontend.App.HandleRemove` | src/App.tsx:108-119 | always one remote remove (no local auth check); on success posts become the list filtered by id; on failure posts are unchanged and a NOT_AUTHENTICATED toast is shown only when not authenticated |
| `Frontend.App.HandleVote` | src/App.tsx:138-160 | not authenticated: no remote call, posts unchanged, one NOT_AUTHENTICATED toast. Authenticated failure: one vote call, posts unchanged, one ALREADY_VOTED toast. Success: a vote call then a `get_posts` call. Posts become the fetched list, or the vote-preserving merge if that fetch fails |

## Left out

- Rendering, JSX, `useState`/`useEffect` scheduling, react-toastify display and the icons are
  presentational. `notify` is modelled only as the text it would show.
- React's stale closures and the interleaving of overlapping async handlers (a `fetchPosts` racing a
  vote, a login resolving mid-handler) are concurrency. Each handler is one atomic transition over the
  current state, and the effect's `fetchPosts` and `is_anonymous_allowed` resolve in that order.
- The `AuthClient` login and logout flows, `AuthClient.create`, `client.isAuthenticated()`,
  `getIdentity()` and `createActor` are foreign library calls. Their results are inputs: whether the
  login succeeded, how `AuthClient.create()` and `isAuthenticated()` settle, and an opaque identity.
- `Frontend.App.Logout`: a rejected `authClient.logout()` promise is not modelled. The model
  assumes it resolves.
- The login options object (`identityProvider: getIIUrl()`) is passed to the foreign login flow. Only
  the URL computation is modelled.
- `Math.random` id generation is an input constrained to 0..999. Nothing makes it unique.
- `is_anonymous_allowed` is not part of this model: the backend file shown does not define it. Its
  answer is an input.
- Candid `Encode!`/`Decode!` and the `Storable` bound of 100 bytes are foreign serialisation, as are
  `MemoryManager` and `StableBTreeMap` internals. The store is an abstract map.
  `Backend.PostStore.Insert` therefore does not model the trap of an item whose encoding exceeds
  `MAX_VALUE_SIZE`.
- Canister upgrades are not modelled: `StableBTreeMap::init` then reloads the map already in stable
  memory, while `Backend.PostStore.constructor` models a fresh install with an empty map.
- `Backend.PostStore.Vote`: the `votes += increment` overflow of `i32` is excluded by a requires.
  Overflow panics or wraps depending on the build profile.
- The client sends a `{Up}/{Down}` variant where the backend's `vote` takes an `i32`. The wire
  encoding is not modelled; the client's vote call outcome is an input, not the backend function.
- The client's `Post` numbers are unbounded integers. The backend's widths are the `u32` and `i32`
  subset types.
- `console.error`/`console.log` are logging only.

## Findings

| source | as written | input that shows it | evidently intended | confidence | as-written member | corrected member |
|---|---|---|---|---|---|---|
| src/App.tsx:41-43 | the off-local branch evaluates the mainnet URL as a bare expression statement, so `getIIUrl` returns `undefined` | `DFX_NETWORK = "ic"` | `return 'https://identity.ic0.app/#authorize'` | not executed; high that the value is lost; whether login still reaches the mainnet provider depends on the default provider of the auth library | `IdentityProvider.GetIIUrl` (shown by `IdentityProvider.GetIIUrlOffLocalUndefined`) | `IdentityProvider.IntendedIIUrl` |
