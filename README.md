# Presence and private-message routing of the chat server

This project models the real-time layer of a two-party chat server built on
socket.io (`server/index.ts`): the `userSockets` registry that maps each
username to the id of the socket that declared it, the private-room name
derived from two usernames, and the four socket handlers — `set username`,
`join chat`, `private message` and `disconnect` — that Node runs one event at
a time over that shared state.

The model has four modules:

- `Options` (`options.dfy`): the optional value returned by the lookups.
- `Room` (`room.dfy`): JavaScript's string `<`, the two-element default
  `sort()`, and the room name `private_${[a, b].sort().join('_')}`. The order
  is proved to be the positional lexicographic order, asymmetric and total, and
  the room name is proved symmetric: both participants derive the same room,
  with the smaller name first.
- `Registry` (`registry.dfy`): `userSockets` as a sequence of
  `(username, socketId)` entries with distinct keys, kept in insertion order,
  because a JavaScript `Map` keeps a re-set key in its original position and
  both `Array.from(userSockets.keys())` and `getUsernameFromSocket` walk the map
  in that order. `get`, `set` and `delete` are functions with lemmas that
  state what each does to every key; the reverse lookup `Owner` answers the
  first entry that holds the socket id.
- `Server` (`server.dfy`): a `ChatServer` class whose fields are the state
  the handlers change — the live sockets, the registry, room membership (held
  inside socket.io through `socket.join`, here a map from room name to socket
  ids) and an outbox of every emit, each emit recording the sockets it reaches
  when it is sent. Each handler is a method whose postcondition gives the
  whole new state, keeps the invariant (distinct, non-empty usernames; only
  live sockets in rooms) and says that every new emit reaches only live
  sockets. `UsernameOf` is the loop of `getUsernameFromSocket`, proved against
  `Registry.Owner`. Client methods play out a private chat between two
  users, a stale disconnect after a name was taken over (with and without a
  second name on the old socket), and a socket that registered two names.

The model follows the code as written:

- `join chat` and `private message` do not reject a contact equal to the
  sender or an empty message text, and neither does the model.
- `set username` never removes the socket's earlier name, so one socket may
  hold several names. `disconnect` deletes only the first of them in insertion
  order; the others stay registered to the closed socket and keep appearing in
  every `user list` (`Server.TwoNamesScenario`).
- The reverse lookup is what keeps a stale socket from evicting a newer
  registration: once another socket re-registers a name, the old socket's
  reverse lookup never answers that name, so its disconnect never deletes the
  newer mapping (`Registry.ReplacedNameNotOwned`). When the old socket held no
  other name it owns no entry at all, and its disconnect deletes nothing and
  broadcasts nothing (`Registry.ReplacedSocketOwnsNothing`,
  `Server.StaleDisconnectScenario`). When it still holds another name, its
  disconnect deletes that name and broadcasts the rest
  (`Server.StaleSecondNameScenario`). The server does not compare socket ids
  on delete, and `userSockets.set` does not report the socket id it replaced.
- The presence list is the registry's keys in insertion order, not a set.
- Room names, usernames and socket ids share socket.io's single room
  namespace: `set username` joins a room named after the user, every socket is
  in a room named by its own id (which is how `io.to(contactSocketId)` reaches
  the contact), and private rooms are `private_…` strings. The model keeps that
  single namespace. Because `_` may occur inside a username, the room name is
  not claimed to be injective.
- The truthiness tests `!username`, `!senderUsername` and `if
  (contactSocketId)` are modelled as "absent or empty" (`Server.Truthy`).

## Model

| member | source | states |
|---|---|---|
| Room.LessIsLexicographic | server/index.ts:199 | the string order used by the default `sort()` holds exactly when the first string is a proper prefix of the second or has the smaller character at the first position where they differ |
| Room.LessAsymmetric | server/index.ts:199 | the string order never holds in both directions, so no string is below itself |
| Room.LessTotal | server/index.ts:199 | of two different strings one is below the other |
| Room.SortPair | server/index.ts:199 | `[a, b].sort()` returns the same two strings, in ascending order |
| Room.RoomName | server/index.ts:198-200 | the room is `private_` + the smaller username + `_` + the larger one, whichever order the names are given in |
| Room.RoomNameSymmetric | server/index.ts:218-219 | the room derived from `(a, b)` equals the room derived from `(b, a)`, so sender and contact name the same room |
| Registry.Keys | server/index.ts:188 | the key list has one username per registry entry |
| Registry.KeysAt | server/index.ts:188 | the key list holds, at each position, the username of the entry at that position, so it follows insertion order |
| Registry.Get | server/index.ts:205 | `get(k)` is absent exactly when `k` is not a key, and otherwise a socket id stored under `k` |
| Registry.GetFindsEntry | server/index.ts:205 | with distinct keys, `get(k)` yields `v` exactly when the pair `(k, v)` is stored |
| Registry.Put | server/index.ts:184 | `set` grows the map by one entry for a new key and keeps its size for an existing key |
| Registry.PutGet | server/index.ts:184 | after `set(k, v)`, `get(k)` is `v` and every other key reads as before |
| Registry.PutKeys | server/index.ts:184 | after `set(k, v)` the key list is unchanged when `k` was present and has `k` appended otherwise |
| Registry.PutEntries | server/index.ts:184 | `set(k, v)` adds no entry other than `(k, v)` |
| Registry.PutDistinct | server/index.ts:184 | `set` keeps the keys distinct |
| Registry.PutReplaces | server/index.ts:184 | on a map with distinct keys, `set(k, v)` leaves `k` listed exactly once and mapped to `v`, all other keys reading as before, and no new key but `k` |
| Registry.RemoveAbsent | server/index.ts:235 | deleting a key that is not present leaves the map unchanged |
| Registry.RemoveCutsEntry | server/index.ts:235 | deleting `k` removes exactly the entry of `k` and keeps the others in their order |
| Registry.RemoveGet | server/index.ts:235 | deleting `k` leaves every other key reading as before |
| Registry.RemoveDistinct | server/index.ts:235 | on distinct keys, deleting `k` removes `k` for good, adds no key and keeps the keys distinct |
| Registry.Owner | server/index.ts:170-175 | the reverse lookup is undefined exactly when no entry holds the socket id; otherwise it answers a stored username whose entry holds that id |
| Registry.OwnerIsFirst | server/index.ts:171-173 | the reverse lookup answers the earliest entry, in insertion order, that holds the socket id |
| Registry.OwnerIsRegistered | server/index.ts:170-175 | with distinct keys, the reverse lookup answers `u` only if the registry maps `u` to that socket id |
| Registry.ReplacedSocketOwnsNothing | server/index.ts:232-235 | once a newer socket re-registers the only name a socket held, the reverse lookup for the old socket finds nothing |
| Registry.ReplacedNameNotOwned | server/index.ts:232-235 | once a newer socket re-registers a name, the reverse lookup for the old socket never answers that name, whatever other names the old socket holds |
| Server.ChatServer.constructor | server/index.ts:133 | the server starts with no socket, an empty registry, no rooms and nothing sent |
| Server.ChatServer.OnConnection | server/index.ts:177-178 | a new socket becomes live and is subscribed to the room named by its own id; the registry and outbox are unchanged |
| Server.ChatServer.UsernameOf | server/index.ts:170-175 | the loop returns the reverse lookup of the socket id, undefined exactly when no entry holds it |
| Server.ChatServer.OnSetUsername | server/index.ts:181-191 | an empty name sends `Username required` to that socket only and changes nothing else; otherwise the name maps to this socket exactly once, every other name reads as before, the socket joins the user's room, and the full key list is broadcast to every live socket |
| Server.ChatServer.OnJoinChat | server/index.ts:194-211 | a socket without a name gets `Not authenticated` and joins no room; otherwise it joins the private room of its name and the contact, and when the contact has a truthy socket id the sockets in that id's room are sent `chat joined` with the sender's name; registry unchanged |
| Server.ChatServer.OnPrivateMessage | server/index.ts:214-229 | a socket without a name gets `Not authenticated` and nothing is delivered; otherwise one message carrying the server-resolved sender name, the text unchanged and the given timestamp goes to exactly the sockets subscribed to the derived room; registry and rooms unchanged |
| Server.ChatServer.OnDisconnect | server/index.ts:232-239 | the socket leaves every room and the live set; when the reverse lookup finds no name nothing else changes and nothing is sent; otherwise exactly that name is deleted, every other name reads as before, and the remaining keys are broadcast to the sockets still live |
| Server.TwoUsersOnline | server/index.ts:181-191 | after three sockets connect and two register as `alice` and `bob`, the registry is exactly those two entries in that order |
| Server.PrivateChatScenario | server/index.ts:214-229 | once `alice` and `bob` have both joined their chat, alice's message reaches exactly their two sockets, stamped `alice`, and not the third socket |
| Server.StaleDisconnectScenario | server/index.ts:232-239 | after a second socket takes over `alice`, the first socket's disconnect leaves `alice` mapped to the second socket and sends no `user list`: the only emits are the two `user list` broadcasts of `["alice"]` to both sockets |
| Server.OneSocketTwoNames | server/index.ts:181-191 | after two sockets connect and the first registers `alice` then `bob`, both names map to the first socket, in that order |
| Server.StaleSecondNameScenario | server/index.ts:232-239 | when the first socket also holds `bob` after a second socket took over `alice`, the first socket's disconnect deletes `bob`, keeps `alice` mapped to the second socket and broadcasts `["alice"]` to the second socket |
| Server.TwoNamesScenario | server/index.ts:232-239 | a socket that registered `alice` then `bob` loses only `alice` on disconnect; `bob` stays registered and is broadcast as online |

## Left out

- The REST endpoints for sign-up, login and the user list (`server/index.ts:36-123`): SQLite queries, bcrypt hashing and JWT signing are calls into libraries with no logic of their own here.
- `server/index.js`, `server/database.ts` and `server/database.js`: the older JavaScript copy of the REST code (its socket handlers are commented out) and the SQLite schema setup; server/constant.ts is not part of this model.
- The commented-out handlers at `server/index.ts:135-167`: dead code.
- Time: `new Date().toISOString()` is a parameter of `OnPrivateMessage`.
- Transport: CORS, `dotenv`, `server.listen`, `console.log`, network delivery and per-socket ordering are not modelled; an emit is the set of sockets it reaches. socket.io deleting a room once it is empty is not modelled (the model keeps an empty set, which reaches nobody).
- Concurrency: Node runs one handler at a time, so each handler is one atomic step; interleavings are not modelled.
- Event order per socket is the transport's: the handlers require the socket to be live, and `OnConnection` requires an id that is not live. Reuse of a closed socket's id is allowed by the model; socket.io's random ids make it practically impossible.
- Payload types: the model takes strings. A non-string payload that JavaScript would treat as falsy (`undefined`, `null`) or sort differently is not modelled.
- Room.RoomName: compares characters as Unicode scalar values, whereas JavaScript compares UTF-16 code units; the two orders differ only between characters above U+FFFF and characters in U+E000–U+FFFF. JavaScript strings may also hold lone surrogate code units (such as the JSON escape `"\uD800"`), which a Dafny `char` cannot represent; such usernames are not modelled.
- Registry.Put: its own contract states only the size change; what `set` does to every key is stated by `PutGet`, `PutKeys`, `PutEntries`, `PutDistinct` and `PutReplaces`.
- Registry.Keys: its contract states only the length; the position of each key is stated by `KeysAt`, and how `set` and `delete` change the list by `PutKeys` and `RemoveCutsEntry`.
