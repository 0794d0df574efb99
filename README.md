# Distribox core, modelled in Dafny

Distribox is a peer-to-peer folder synchroniser. This model covers three parts of its core:

- **The version store** (`VersionList`) keeps every file item ever seen. Each item has a history of versions. The store also has an index from current path to live item, and it computes the difference with another store: the entries that store has and this one lacks.
- **The peer directory** (`PeerList`) is a deduplicated set of peer endpoints. It supports insert-if-absent, union-merge and random selection, and it is flushed to disk after every change.
- **The anti-entropy protocol** (`AntiEntropyProtocol`) answers each incoming message according to its type. On every timer tick it tries to contact one random known peer listening on a port other than its own. As written, that tick crashes on an empty peer list and never finishes when every peer shares its port (see Findings).

Files:

- `wrappers.dfy`: Option, Result and Outcome.
- `file_items.dfy`: the file item and its history.
- `version_diff.dfy`: the difference between two version lists, as a pure specification, with its lemmas.
- `version_list.dfy`: the version store class.
- `peer_list.dfy`: the peer directory class.
- `anti_entropy.dfy`: the protocol.

Modelling choices:

- **The shared item objects.** The index and `AllFiles` share the same item objects. The model refers to an item by its position in `AllFiles`, so updating the item at that position is updating the one object both structures reach.
- **The difference.** `GetLessThan` is proved equal to `Diff`, a recursive definition over the remote entries. The lemmas say what `Diff` holds:
  - which identifiers it names (an if-and-only-if);
  - exactly which entries each item holds, and how many times;
  - that it holds no identifier twice;
  - that a list lacks nothing of itself;
  - that adding the difference closes the gap.
- **The protocol.** Each message is handled by `Receive`, a pure function from the node's state, the sender's address and the message to:
  - the messages sent, in order;
  - the new peer set;
  - the number of flushes.

  `ReceiveHandler` is proved to do exactly that on the node's objects, and to change nothing when it fails.
- **Sending.** Sending is appending to an outbox.

## Model

| member | source | states |
|---|---|---|
| FileItems.ExtendsTransitive | Distribox/Distribox.FileSystem/VersionList.cs:61-123 | the only way the store changes its items (append an item, append to a history) composes: extensions of extensions are extensions |
| VersionLists.VersionList.Load | Distribox/Distribox.FileSystem/VersionList.cs:43-53 | the loaded items are kept as given; a path is indexed iff some live item has it as its current name; the index points at a live item of that name, and no later item has it (the last one wins) |
| VersionLists.VersionList.Decoded | Distribox/Distribox.FileSystem/VersionList.cs:37 | a list built for deserialisation holds the given items and an empty index |
| VersionLists.VersionList.Create | Distribox/Distribox.FileSystem/VersionList.cs:61-74 | an indexed name yields None and changes nothing; otherwise a new live item with one Created entry is appended and indexed under the name; the index stays valid and consistent and no existing history changes |
| VersionLists.VersionList.Change | Distribox/Distribox.FileSystem/VersionList.cs:83-94 | an unindexed name is created first; a directory then gets nothing more, a file gets one Changed entry with the new hash on the indexed item; every other item is unchanged and histories only grow |
| VersionLists.VersionList.Rename | Distribox/Distribox.FileSystem/VersionList.cs:103-111 | an unindexed old name fails with KeyNotFound and changes nothing; otherwise the item gets a Renamed entry, the old name leaves the index and the new name points at the same item |
| VersionLists.VersionList.Delete | Distribox/Distribox.FileSystem/VersionList.cs:118-123 | an unindexed name fails with KeyNotFound and changes nothing; otherwise the item gets a Deleted entry and is no longer alive, the name leaves the index and the item stays in AllFiles |
| VersionLists.VersionList.GetLessThan | Distribox/Distribox.FileSystem/VersionList.cs:131-156 | the result is exactly `Diff` of this list's items and the other list's items; a list compared with itself yields nothing |
| VersionLists.VersionList.GetFileByName | Distribox/Distribox.FileSystem/VersionList.cs:171-174 | succeeds iff the name is indexed, and then yields the item the index points at, which is live and carries that name when the index is consistent |
| VersionLists.VersionList.SetFileByName | Distribox/Distribox.FileSystem/VersionList.cs:181-184 | the name now points at the given item, every other index entry and every item unchanged |
| VersionDiff.EntriesMember | Distribox/Distribox.FileSystem/VersionList.cs:134-140 | the flattened entries of a list are exactly the (identifier, version) pairs of its items' histories |
| VersionDiff.LocalKeysGrow | Distribox/Distribox.FileSystem/VersionList.cs:133-140 | as the store's items only grow, the set of known `Id@SHA1` keys only grows |
| VersionDiff.MissingIdsDistinct | Distribox/Distribox.FileSystem/VersionList.cs:150-151 | an identifier enters the result once, however many of its entries are missing |
| VersionDiff.DiffIdsDistinct | Distribox/Distribox.FileSystem/VersionList.cs:142-155 | no two items of the difference share an identifier |
| VersionDiff.DiffCoversExactly | Distribox/Distribox.FileSystem/VersionList.cs:143-153 | the difference has an item for an identifier iff the remote list has an entry of it whose `Id@SHA1` key is not a local key |
| VersionDiff.DiffHistoryExact | Distribox/Distribox.FileSystem/VersionList.cs:145-153 | each item of the difference is a fresh partial item with a non-empty history holding each version of its identifier as often as the remote list has it when its key is unknown locally, and never when it is known |
| VersionDiff.DiffSelfEmpty | Distribox/Distribox.FileSystem/VersionList.cs:131-156 | a list lacks nothing of itself |
| VersionDiff.RequestsShrink | Distribox/Distribox.FileSystem/VersionList.cs:61-156 | after a store update (create, change, rename, delete: each only extends the items), an identifier the store would request from a remote list is one it would have requested before; updates chain through ExtendsTransitive |
| VersionDiff.DiffClosesGap | Distribox/Distribox.FileSystem/VersionList.cs:127-131 | once the difference is added to the local items, the remote list has nothing more the local one lacks |
| Peers.Peer.Equals | Distribox/Distribox.Network/PeerList.cs:53-57 | two peers are equal iff they are the same endpoint (IP and port) |
| Peers.PeerList.constructor | Distribox/Distribox.Network/PeerList.cs:73-77 | a new list is empty and bound to its file |
| Peers.GetPeerList | Distribox/Distribox.Network/PeerList.cs:79-85 | the stored list when the file exists, otherwise a new empty list bound to the file name |
| Peers.PeerList.Decoded | Distribox/Distribox.Network/PeerList.cs:82 | the list read back from a stored or received snapshot holds exactly its peers and file name, not yet flushed |
| Peers.PeerList.FlushToDisk | Distribox/Distribox.Network/PeerList.cs:68-71 | one more write of the list to its file, the list itself unchanged |
| Peers.PeerList.AddPeer | Distribox/Distribox.Network/PeerList.cs:94-103 | the peer is a member afterwards, nothing else is added, and the size grows by one exactly when it was new |
| Peers.PeerList.AddPeerAndFlush | Distribox/Distribox.Network/PeerList.cs:87-92 | adds the peer if absent, then flushes once |
| Peers.PeerList.SelectRandomPeer | Distribox/Distribox.Network/PeerList.cs:105-114 | yields nothing iff the list is empty, and otherwise one of its peers |
| Peers.PeerList.MergeWith | Distribox/Distribox.Network/PeerList.cs:116-123 | the peers become the union of both lists (unchanged when the other list adds nothing new), then one flush |
| AntiEntropy.IpPart | Distribox/Distribox.Network/AntiEntropyProtocol.cs:37-38 | the IP is the part of the address before the first ':' |
| AntiEntropy.SenderOf | Distribox/Distribox.Network/AntiEntropyProtocol.cs:36-41 | the sender's IP is a ':'-free prefix of the socket address, and its port is the listening port the message names, not the socket's; see RepliesGoToSender |
| AntiEntropy.SendMetaData | Distribox/Distribox.Network/AntiEntropyProtocol.cs:146-157 | two messages to the peer, both naming this node's port: the peer list, then the version list |
| AntiEntropy.ProcessInvitation | Distribox/Distribox.Network/AntiEntropyProtocol.cs:70-76 | one AcceptInvitation to the inviter, naming this node's port |
| AntiEntropy.ProcessAcceptInvitation | Distribox/Distribox.Network/AntiEntropyProtocol.cs:78-84 | one ConnectRequest to the accepting peer, naming this node's port |
| AntiEntropy.ProcessConnectRequest | Distribox/Distribox.Network/AntiEntropyProtocol.cs:86-95 | three messages to the requester: AcceptConnect, then the metadata; see ConnectExchangeClosesGap |
| AntiEntropy.ProcessAcceptConnect | Distribox/Distribox.Network/AntiEntropyProtocol.cs:97-100 | the two metadata messages to the accepting peer |
| AntiEntropy.ProcessVersionList | Distribox/Distribox.Network/AntiEntropyProtocol.cs:111-122 | one FileRequest to the sender, empty when the received list is the node's own; what it names is stated by VersionListRequestsMissing |
| AntiEntropy.ProcessFileRequest | Distribox/Distribox.Network/AntiEntropyProtocol.cs:124-136 | one FileDataResponse to the requester, whose delivery deletes the bundle file |
| AntiEntropy.Receive | Distribox/Distribox.Network/AntiEntropyProtocol.cs:31-56 | the dispatch on the message type: it fails exactly on an unknown type, never forgets a peer, and replies only to the sender, at the port the message names; the reply kinds are stated by ReceiveFollowsReplyTable |
| AntiEntropy.ReceiveFollowsReplyTable | Distribox/Distribox.Network/AntiEntropyProtocol.cs:44-55 | a message fails iff its type is unknown; every other type is answered by replies of the kinds the reply table gives, in that order |
| AntiEntropy.RepliesGoToSender | Distribox/Distribox.Network/AntiEntropyProtocol.cs:36-41 | every reply goes to the sender's IP at the listening port the message names, not to the socket's port, and carries this node's port |
| AntiEntropy.PeerListMergesSender | Distribox/Distribox.Network/AntiEntropyProtocol.cs:102-109 | a peer list adds the sender and the received peers with two flushes and no reply; no other message changes the peer set or flushes it |
| AntiEntropy.PeerListIdempotent | Distribox/Distribox.Network/AntiEntropyProtocol.cs:102-109 | receiving the same peer list again changes nothing more |
| AntiEntropy.VersionListRequestsMissing | Distribox/Distribox.Network/AntiEntropyProtocol.cs:111-122 | a version list is answered by one file request naming an identifier iff the received list has an entry of it whose key is unknown locally, and ingesting it leaves nothing missing |
| AntiEntropy.ConnectExchangeClosesGap | Distribox/Distribox.Network/AntiEntropyProtocol.cs:86-157 | after a connect request the third reply is the node's version list, and the requester answers it with a file request for exactly what it lacks, which closes the gap |
| AntiEntropy.AntiEntropyProtocol.constructor | Distribox/Distribox.Network/AntiEntropyProtocol.cs:180-184 | the node's port is set, its peer list is the one stored in the peer file or a new empty one, and nothing has been sent |
| AntiEntropy.AntiEntropyProtocol.SendMessage | Distribox/Distribox.Network/AntiEntropyProtocol.cs:58-68 | sends exactly one message to the peer, with its completion action, after everything sent before |
| AntiEntropy.AntiEntropyProtocol.SendMetaDataTo | Distribox/Distribox.Network/AntiEntropyProtocol.cs:146-157 | sends the peer list and then the version list to the peer |
| AntiEntropy.AntiEntropyProtocol.ProcessPeerList | Distribox/Distribox.Network/AntiEntropyProtocol.cs:102-109 | the sender and the received peers join the set, with two flushes |
| AntiEntropy.AntiEntropyProtocol.ReceiveHandler | Distribox/Distribox.Network/AntiEntropyProtocol.cs:31-56 | does exactly what `Receive` gives on the node's state: the replies are appended in order and the peer set and flush count become the step's; an unknown type fails and changes nothing |
| AntiEntropy.AntiEntropyProtocol.InvitePeer | Distribox/Distribox.Network/AntiEntropyProtocol.cs:197-200 | sends one Invitation carrying this node's port |
| AntiEntropy.AntiEntropyProtocol.ConnectRandomPeer | Distribox/Distribox.Network/AntiEntropyProtocol.cs:159-173 | as written: crashes exactly when the list is empty, never connects when every peer has this node's port, and otherwise sends one ConnectRequest to a member with another port |
| AntiEntropy.AntiEntropyProtocol.ConnectRandomPeerGuarded | Distribox/Distribox.Network/AntiEntropyProtocol.cs:159-173 | as intended: connects iff some peer has another port, and then to such a peer with one ConnectRequest; otherwise sends nothing |
| AntiEntropy.AntiEntropyProtocol.OnTimerEvent | Distribox/Distribox.Network/AntiEntropyProtocol.cs:175-178 | a tick runs the as-written ConnectRandomPeer: it crashes exactly when the list is empty, keeps drawing when every peer has this node's port, never stays idle, and when it connects it sends exactly one ConnectRequest to a listed peer with another port |
| AntiEntropy.EmptyDirectoryTickCrashes | Distribox/Distribox.Network/AntiEntropyProtocol.cs:165-171 | on a node with no stored peers the first timer tick dereferences a null peer |
| AntiEntropy.SelfOnlyDirectoryNeverConnects | Distribox/Distribox.Network/AntiEntropyProtocol.cs:165-169 | with only a peer on this node's port the timer tick keeps drawing, while the guarded tick stays idle |

## Left out

- Serialisation is not modelled. This covers the JSON or byte encoding of messages, peer lists and version lists, `ParseToDerivedClass`, `ToJSON`/`ParseJSON`, and the writes made by `VersionList.Flush` and `PeerList.FlushToDisk`. For `PeerList`, each flush is counted in a ghost counter instead. `VersionList.Flush` is left out entirely, with no counter. What a stored file holds is a parameter.
- `Peer.GetHashCode` is not modelled. It is used only by the hash set, and the model uses Dafny's set equality instead.
- `IPAddress.Parse` is not modelled. The IP is kept as the string before the first ':', and a malformed address is not rejected.
- Building and accepting file bundles is outside this core (`CreateFileBundle`, `File.ReadAllBytes`, `AcceptFileBundle`). The bundle a file request would produce is a parameter of the handler. The effect of a file data response on the store is not modelled.
- Several runtime details are not modelled: the locks, the listener, the timer, the socket sender and the console logging. Every handler runs as one atomic step, and sending is appending to an outbox.
- `SendMessage` with a null completion handler is modelled as `NoAction`.
- The random number generator is not modelled. Random selection is a nondeterministic choice among the members.
- Fresh GUIDs for new items are the `id` parameter of `Create` and `Change`.
- FileItem's own source is not part of this model. `FileItem.Create`, `Change`, `Rename`, `Delete` and `NewVersion` each append one entry, as the version store relies on. The hashes recorded by Created, Renamed and Deleted entries are this model's choice. So are the fields of the partial item built from an identifier alone.
- The enumeration order of the result dictionary in `GetLessThan` is taken to be insertion order. That is the first missing entry of each identifier.
- VersionLists.VersionList.SetFileByName: takes the position of an item already in AllFiles, not an arbitrary object. An item the store does not hold cannot be indexed.
- AntiEntropy.AntiEntropyProtocol.constructor: takes the version store as a parameter, because the property that holds it is set by the caller. It does not start a listener or a timer.
- AntiEntropy.AntiEntropyProtocol.ConnectRandomPeer: draws at most `maxDraws` times after the first draw, where the source loops without bound. `StillDrawing` stands for the endless loop.
- AntiEntropy.AntiEntropyProtocol.OnTimerEvent: follows the same `maxDraws` bound as the tick it runs, where the source loops without bound while holding the peer list's lock.
- AntiEntropy.AntiEntropyProtocol.ReceiveHandler: the failed parse of an unrecognisable byte message is not modelled. The only failure modelled is a message of an unknown type.

## Findings

| source | as written | input that shows it | evidently intended | confidence | as-written member | corrected member |
|---|---|---|---|---|---|---|
| Distribox/Distribox.Network/AntiEntropyProtocol.cs:165-171 | the loop condition reads `peer.Port` before the null check at line 171, so an empty peer list throws a null reference | a node whose peer file does not exist, on its first timer tick | with no peers, send nothing | not executed | AntiEntropy.EmptyDirectoryTickCrashes | AntiEntropy.AntiEntropyProtocol.ConnectRandomPeerGuarded |
| Distribox/Distribox.Network/AntiEntropyProtocol.cs:165-169 | the loop redraws until a peer's port differs from this node's, so it never ends when every known peer has this node's port | a peer list holding only `10.0.0.2:9000` on a node listening on 9000 | with no other-port peer, send nothing | not executed | AntiEntropy.SelfOnlyDirectoryNeverConnects | AntiEntropy.AntiEntropyProtocol.ConnectRandomPeerGuarded |
