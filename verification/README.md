# ElDewrito, the parts that stand on their own

ElDewrito is a modification of a game whose engine is not in the repository. Most of its source hooks into that engine;
on top of it stand algorithms that do not depend on it. This project models those and proves what they are for:

- **Variable replication** (`Replication`, `Protocol`, `Synchronizer`): the host copies server variables to client
  variables, batches what each peer lacks into packets, and keeps a bit for each peer and binding. Proved: safety over all
  runs, convergence after one tick however deliveries and later ticks mix, and when later ticks are silent.
- **Wire codecs** (`Bits`, `BitWindow`, `Messages`, `Packets`, `Streams`, `Extender`, `PlayerExtensions`): numbers, strings
  and packet bodies as bits, custom packets around them, and a list of extensions in one buffer. Proved: round trips for
  all inputs, and exactly which inputs come back unchanged.
- **Console language** (`Text`, `Tokenizer`, `Numbers`, `CommandMap`, `Console`, `ConfigFile`, `NameTable`, `Bindings`,
  `BindingsRoundTrip`, `BindingNames`, `BindingCommands`, `ModuleInput`): a tokenizer over one shared buffer, a registry
  with rollback, and two printers whose output is read back through that tokenizer.
- **Chat flood filter** (`FloodFilter`): a leaky bucket with doubling timeouts and a pruned table, in 32-bit arithmetic.
- **Votes** (`MapVoting`, `VotingResults`, `VotingSystem`, `ChatVotes`, `ChatCommands`): timed state machines with tallies,
  revotes, thresholds and cooldowns.
- **Off-screen compositor** (`Rectangles`, `Compositor`, `CompositorRuns`, `WebRendererHandler`): rectangle algebra and
  strided copies that keep a popup on top of a page, and exactly which events of a run they survive.
- **Smaller pieces**: the in-place name sanitizer (`PlayerName`), the ban-list printer and parser (`BanList`), and the stack
  of input contexts (`InputContexts`). `Collections` holds the loop idiom for sets and `Integers` the machine numbers that
  several modules share.

Code that the source updates in place is a class with methods, each proved to compute a function of the old state; the
properties are proved about those functions and the runs they make. Clocks, random draws, session state, player names and
the answers of update events are inputs of the steps.

Seven properties that the code seems meant to have do not hold of all inputs; each is stated with its exact condition:

- A refused update of an Int64 variable is not always undone (`CommandMap.Int64RefusalRestoresIff`). No Int64 variable is
  registered anywhere in the repository (`AddVariableInt64` has no caller), so this one is latent.
- The flood filter bounds nothing when the timeout, read as a 32-bit `int`, is not positive: zero, or 2^31 and more
  (`FloodFilter.RateBoundIffTimeouts`, `FloodFilter.HugeTimeoutExample`).
- Of two options with equally many votes on a map, the later need not win, since `std::sort` promises no order for them:
  an option wins under every sort if and only if no other has as many votes (`VotingResults.WinsEverySortIff`,
  `VotingResults.EarlierMayWinTie`).
- Votes can be carried over to a ballot nobody has seen (`VotingResults.NewBallotIsUnvotedIff`,
  `VotingResults.VotesCanBeCarriedOver`).
- An input context that is pushed during or after the tick in which another one ends is taken off in its place
  (`InputContexts.EndedIsPoppedIff`, `InputContexts.PushedIsPoppedExample`).
- A shown popup that reaches beyond the left or right edge of the page is painted into the neighbouring rows
  (`Compositor.StaysInPlaceIff`, `Compositor.OverhangExample`).
- Not every binding comes back from its exported text: a few codes have no name, and a slot with both a key and a mouse
  button loses one of them (`BindingNames.GameActionSurvivesIff`, `BindingNames.JumpIsLostExample`).

Assumptions: each peer's channel is reliable and keeps order; a peer index is reused only after a tick has seen it not
ready; update events do not write bound variables; time is never zero; structure sizes and field offsets are those of a
32-bit build.

## Model

| member | source | states |
|---|---|---|
| Protocol.RunIsSafe | ElDorito/Source/Server/VariableSynchronization.cpp:205-326 | Safety over runs: in every state reached by any sequence of server writes, host ticks, in-order deliveries and peers becoming ready, unready, leaving and being replaced, a set bit of a connected peer promises that the peer's variable, once its channel is drained, is the host's client variable as it travels (a string cut to 512 characters), or that both are zeros of a Float |
| Protocol.StepIsSafe | ElDorito/Source/Server/VariableSynchronization.cpp:205-326 | Every single step keeps that promise for every peer and binding, and keeps the bits of peers that a tick has seen not ready cleared |
| Protocol.OneTickConverges | ElDorito/Source/Server/VariableSynchronization.cpp:205-326 | One host tick plus delivery makes every ready peer agree with the host on every binding it has, and every client variable of the host is its server variable, or both are zeros of a Float |
| Protocol.WriteArrives | ElDorito/Source/Server/VariableSynchronization.cpp:205-326 | From every safe state, what is written to a server variable is, after the next tick and its delivery, what every ready peer has (cut to 512 characters, or the other zero of a Float), and so are all other server variables |
| Protocol.JoinerCatchesUp | ElDorito/Source/Server/VariableSynchronization.cpp:299-317 | Whoever joins at an index and becomes ready has every server variable that its game knows after the next tick and its delivery, whatever the index was used for before |
| Protocol.UnreadyIsForgotten | ElDorito/Source/Server/VariableSynchronization.cpp:313-317 | A tick clears every bit of a peer that is not ready, and once a tick has seen that its connection is gone another machine may take its index |
| Protocol.DeliverAll | ElDorito/Source/Server/VariableSynchronization.cpp:385-400 | Delivering everything to one peer is a run of the protocol that ends with an empty channel and the drained variables |
| Protocol.LaterTicksAreQuietIff | ElDorito/Source/Server/VariableSynchronization.cpp:205-326 | In every state of every run from a safe state that starts with a tick and goes on with ticks and deliveries in any order: the state is safe, no binding has changed since the first tick, the host's client variables are its server variables up to the sign of a zero, every ready peer with an empty channel agrees with the host, and the next tick leaves the whole state as it is if and only if no server variable is a NaN or no peer is ready |
| Protocol.SettledTickIff | ElDorito/Source/Server/VariableSynchronization.cpp:205-326 | A tick of a settled state, which a tick leaves and deliveries keep, changes no binding, and nothing at all if and only if no server variable is a NaN or no peer is ready |
| Protocol.DeliverEverything | ElDorito/Source/Server/VariableSynchronization.cpp:385-400 | Delivering everything to all connected peers, one after another, is a run that ends with empty channels and the drained variables |
| Protocol.Converges | ElDorito/Source/Server/VariableSynchronization.cpp:205-400 | From every safe state there is a run of one tick and deliveries that ends with every ready peer in agreement with the host and its channel empty |
| Protocol.QuietPeer | ElDorito/Source/Server/VariableSynchronization.cpp:225-288 | A tick sends a ready peer nothing if and only if the peer is still marked in every binding after the comparison of variables |
| Protocol.DrainedAfterTick | ElDorito/Source/Server/VariableSynchronization.cpp:262-317 | What one tick adds to a ready peer's channel sets, once drained, exactly the variables whose bit was clear, and no others |
| Replication.TickedIs | ElDorito/Source/Server/VariableSynchronization.cpp:123-217 | A tick leaves a binding as it is exactly if its variables are the same and not a NaN by the bits of IEEE 754, or both zeros; otherwise the client variable becomes the server variable and every peer's bit is cleared |
| Replication.ApplyOneIs | ElDorito/Source/Server/VariableSynchronization.cpp:385-400 | A received update sets the variable it names if the game has it with the same type, and no other variable |
| Replication.OverTheWireIs | ElDorito/Source/Server/VariableSynchronization.cpp:237-260 | Numbers arrive as they are and strings cut to 512 characters, through the real packet codec |
| Replication.ReceiveUpdates | ElDorito/Source/Server/VariableSynchronization.cpp:262-272 | An update packet built from any 1 to the maximal number of out-of-date bindings is serialized, deserialized and applied as exactly those updates, in order |
| Replication.DrainAppend | ElDorito/Source/Server/VariableSynchronization.cpp:385-400 | Receiving two channels one after the other is receiving their concatenation: packets in order |
| Synchronizer.Host.Synchronize | ElDorito/Source/Server/VariableSynchronization.cpp:79-119 | A binding is added, up to date nowhere, if and only if the types match and the ID is free; otherwise nothing changes |
| Synchronizer.Host.TickBinding | ElDorito/Source/Server/VariableSynchronization.cpp:205-217 | A changed server variable is copied to the client variable and all the binding's bits are cleared; an unchanged one leaves the binding alone |
| Synchronizer.Host.TickBindings | ElDorito/Source/Server/VariableSynchronization.cpp:219-223 | Every binding of the table is ticked once |
| Synchronizer.Host.FindOutOfDateBindings | ElDorito/Source/Server/VariableSynchronization.cpp:225-235 | Exactly the bindings without the peer's bit, in table order |
| Synchronizer.Host.SynchronizePeer | ElDorito/Source/Server/VariableSynchronization.cpp:274-288 | One packet with everything the peer lacks goes into its channel (none if it lacks nothing), and its bit is set everywhere; other channels and bits stay |
| Synchronizer.Host.SynchronizePeers | ElDorito/Source/Server/VariableSynchronization.cpp:299-317 | Afterwards every binding's bits are exactly the ready peers, and each ready peer was sent what it lacked |
| Synchronizer.Host.HostTick | ElDorito/Source/Server/VariableSynchronization.cpp:319-326 | The in-place loops compute the tick that the protocol is proved for: same bindings, same channels |
| Synchronizer.Client.HandlePacket | ElDorito/Source/Server/VariableSynchronization.cpp:385-400 | Every update naming a known variable of its type sets it, in order; a host ignores the packet |
| Bits.FromToBits | ElDorito/Source/Blam/BitStream.hpp:20-47 | A number written in n bits reads back as its remainder modulo 2 to the n |
| Bits.CountBitsIsExact | ElDorito/Source/Utils/Bits.hpp:8-17 | CountBits is the exact bit length: the value fits in that many bits and not in fewer |
| Bits.CountBitsIsLeast | ElDorito/Source/Utils/Bits.hpp:8-17 | A field of n bits holds every value up to the maximum if and only if n is at least CountBits of the maximum |
| Bits.ComputeCountBits | ElDorito/Source/Utils/Bits.hpp:8-17 | The shifting loop computes the bit length |
| Bits.ReadBackUnsigned | ElDorito/Source/Blam/BitStream.hpp:20-47 | Reading a ranged number (minimum zero) from the front of a stream gives its low bits and leaves exactly the rest |
| Bits.ReadBackBlock | ElDorito/Source/Blam/BitStream.hpp:49-50 | A block of bytes reads back, leaving exactly the rest of the stream |
| Bits.ByteInBlock | ElDorito/Source/Blam/BitStream.hpp:49-50 | Every byte of a block is on the wire in its place, eight bits, most significant first |
| Bits.ReadBackString | ElDorito/Source/Blam/BitStream.hpp:52-82 | A string in a fixed array reads back as its bytes up to the first NUL, padded with zeros, whatever follows the NUL or even if there is none |
| Bits.LengthIsChecked | ElDorito/Source/Blam/BitStream.hpp:68-82 | From any stream: a length that leaves no room for the NUL is refused after consuming only the length; any other gives a string of that length followed by zeros, or finds the stream too short |
| BitWindow.Appends | ElDorito/Source/Blam/BitStream.cpp:27-36 | Shifting the 64-bit window and masking the value append: the bits already there keep their order and the value's low bits follow |
| BitWindow.LowBitsOf | ElDorito/Source/Blam/BitStream.cpp:34 | The low bits taken from the 64-bit value are the bits of the value at the smaller width |
| BitWindow.Window.WriteBits | ElDorito/Source/Blam/BitStream.cpp:27-36 | For 1 to 63 bits that fit, the window afterwards holds the old bits followed by the value's, and the counters advance |
| Messages.ReadBackChat | ElDorito/Source/Server/ServerChat.cpp:45-84 | Every chat message reads back with its kind, text up to the NUL, and sender and target where its kind carries them, zero elsewhere; exactly its bits are consumed |
| Messages.ChatKeptIff | ElDorito/Source/Server/ServerChat.cpp:45-84 | So a chat message arrives as it was sent if and only if its text is followed by zeros only, the players' indices have four bits, and it has a sender only if it is not the server's and a target only if it is a whisper |
| Messages.ChatOnTheWire | ElDorito/Source/Server/ServerChat.cpp:45-60 | On the wire are three bits of type, the text, four bits of sender unless it is the server, and four bits of target for a whisper |
| Messages.ReadBackVoting | ElDorito/Source/Server/VotingPackets.cpp:22-90 | Every voting message reads back with the fields its kind carries (numbers keep the bits of their field, a mapId 14) and zeros elsewhere |
| Messages.VotingKeptIff | ElDorito/Source/Server/VotingPackets.cpp:22-90 | So a voting message arrives as it was sent if and only if the fields of its type fit in their bits, names are followed by zeros only, and every other field is zero |
| Messages.VotingOnTheWire | ElDorito/Source/Server/VotingPackets.cpp:22-52 | On the wire are three bits of type and then three bits of vote or winner, five bits for each count of a tally, or the options and seven bits of time |
| Messages.ReadBackVars | ElDorito/Source/Server/VariableSynchronization.cpp:328-383 | Any number of variable updates of all four types read back in order |
| Messages.UpdateKeptIff | ElDorito/Source/Server/VariableSynchronization.cpp:328-383 | A variable update arrives as it was sent if and only if an Int has 32 bits and a string is followed by zeros only |
| Messages.UpdateOnTheWire | ElDorito/Source/Server/VariableSynchronization.cpp:328-354 | On the wire are 32 bits of ID, three bits of type and the value, a float as its four bytes, least significant first |
| Packets.CountOfSize | ElDorito/Source/Patches/CustomPackets.hpp:280-295 | The element count computed from a packet size is n if and only if the size is the fixed part plus n elements |
| Packets.ReadBackPacket | ElDorito/Source/Patches/CustomPackets.cpp:95-143 | For every registered handler and acceptable size, deserializing what was serialized gives the same header, type and count and the received body, and consumes exactly those bits |
| Packets.SentPacketArrivesIff | ElDorito/Source/Patches/CustomPackets.cpp:95-143 | A packet of the size its sender computes arrives if and only if its type is registered and it holds between one and the maximal number of updates; otherwise reading fails |
| Packets.AcceptedOnlyIf | ElDorito/Source/Patches/CustomPackets.cpp:120-143 | Whatever the bits are: a packet is accepted only if the 32 bits behind its header are a registered GUID, its body is of that type and its size is that of the type; an update packet states its number of updates, at least one, which makes up its size |
| Packets.PacketTypes.RegisterPacket | ElDorito/Source/Patches/CustomPackets.cpp:50-62 | A handler is registered if and only if its GUID is free; otherwise nothing changes |
| Streams.BitStream.WriteString | ElDorito/Source/Blam/BitStream.hpp:52-66 | The length loop writes the string's length and bytes as the codec lemmas have them |
| Streams.BitStream.ReadString | ElDorito/Source/Blam/BitStream.hpp:68-82 | Reading fills the array with the string and zeros, or reports a length that is out of range after consuming only the length |
| Streams.SerializeChat | ElDorito/Source/Server/ServerChat.cpp:45-60 | Appends exactly the bits of the chat message to the stream |
| Streams.DeserializeChat | ElDorito/Source/Server/ServerChat.cpp:62-84 | Reads what the chat reader reads and leaves the stream where it stops |
| Streams.SerializeVoting | ElDorito/Source/Server/VotingPackets.cpp:22-52 | Appends exactly the bits of the voting message, in loops over options and votes |
| Streams.DeserializeVoting | ElDorito/Source/Server/VotingPackets.cpp:54-90 | Reads what the voting reader reads and leaves the stream where it stops |
| Streams.SerializeUpdates | ElDorito/Source/Server/VariableSynchronization.cpp:328-354 | Appends exactly the bits of every update in order |
| Streams.DeserializeUpdates | ElDorito/Source/Server/VariableSynchronization.cpp:356-383 | Reads the given number of updates or fails where the reader fails |
| Extender.ReadBackExtensions | ElDorito/Source/Patches/PlayerPropertiesExtension.cpp:37-57 | For any list of extensions that each read back, the whole list reads back at its running offsets, exactly its bits are consumed and the size is kept |
| Extender.SlicesOfBuilt | ElDorito/Source/Patches/PlayerPropertiesExtension.cpp:15-35 | Every extension is handed exactly the slice of the shared buffer that it built |
| Extender.PlayerPropertiesExtender.GetTotalSize | ElDorito/Source/Patches/PlayerPropertiesExtension.cpp:7-13 | The sum of the sizes of all extensions |
| Extender.PlayerPropertiesExtender.BuildData | ElDorito/Source/Patches/PlayerPropertiesExtension.cpp:15-24 | The advancing pointer fills the buffer with every extension's data in order, and writes nothing behind them |
| Extender.PlayerPropertiesExtender.ApplyData | ElDorito/Source/Patches/PlayerPropertiesExtension.cpp:26-35 | Each extension gets its slice of the buffer, in order |
| Extender.PlayerPropertiesExtender.SerializeData | ElDorito/Source/Patches/PlayerPropertiesExtension.cpp:37-46 | Appends what the extensions write of their slices, in order |
| Extender.PlayerPropertiesExtender.DeserializeData | ElDorito/Source/Patches/PlayerPropertiesExtension.cpp:48-57 | Fills the buffer with what the extensions read, in order |
| PlayerExtensions.ReadBackArmor | ElDorito/Source/Patches/Armor.cpp:108-134 | Colours come back with 24 bits and every armour piece with the bits of its largest index |
| PlayerExtensions.ArmorKeptIff | ElDorito/Source/Patches/Armor.cpp:20-22 | Armour survives the trip unchanged if and only if every colour is below 2^24 and every piece fits in the bits of its largest index |
| PlayerExtensions.MemoryReadsBack | ElDorito/Source/Patches/Armor.cpp:78-134 | The customization struct is read from raw memory as it was written there: five little-endian words of colour, seven bytes of armour, a byte of padding and a word |
| PlayerExtensions.ArmorIsSound | ElDorito/Source/Patches/Armor.cpp:108-134 | The armour extension meets what the list of extensions needs of it, on raw memory |
| PlayerExtensions.UidIsSound | ElDorito/Source/Patches/PlayerUid.cpp:21-45 | So does the player-UID extension, whose eight bytes come back unchanged |
| PlayerExtensions.RegisteredExtensionsReadBack | ElDorito/Source/Patches/PlayerPropertiesExtension.cpp:37-57 | The two extensions that are registered come back from one buffer at their running offsets |
| PlayerExtensions.SerializeArmor | ElDorito/Source/Patches/Armor.cpp:108-120 | The loops over colours and pieces append exactly the armour's bits |
| Tokenizer.CommandLineToArgvA | ElDorito/Source/CommandMap.cpp:402-485 | The offsets in argv, read as NUL-terminated strings in the shared buffer, are the arguments of a quote-aware split of the line; there are at most (len+1)/2 of them, every write is inside the two areas as allocated, and a null pointer closes the list |
| Tokenizer.ArgumentCharacters | ElDorito/Source/CommandMap.cpp:402-485 | No argument of any line holds a quote, or a character that the line does not hold |
| Tokenizer.BlanksSeparate | ElDorito/Source/CommandMap.cpp:402-485 | Space, tab, newline and carriage return, and nothing else, end an argument outside quotes; none starts between two of them |
| Tokenizer.QuotesGlue | ElDorito/Source/CommandMap.cpp:402-485 | Quoted text, blanks and all, is part of the argument around it, also when the quote is never closed |
| Tokenizer.JoinReadsBackIff | ElDorito/Source/CommandMap.cpp:97-104 | Tokenizing the quoted join of a list gives back the list if and only if no element holds a quote or a NUL |
| Tokenizer.JoinQuoted | ElDorito/Source/CommandMap.cpp:97-104 | The loop builds the quoted join |
| Numbers.ParsePrinted | ElDorito/Source/CommandMap.cpp:261-319 | Parsing with automatic base gives back every printed number, although a leading zero would mean octal |
| Numbers.ParsedIs | ElDorito/Source/CommandMap.cpp:261-319 | Parsing skips white space, takes a sign, chooses the radix by the prefix, gives the number that the digits stand for by their places, negated modulo for a minus, and nothing if it does not fit; what follows the digits is passed over |
| CommandMap.ReachableIsWellFormed | ElDorito/Source/CommandMap.cpp:68-203 | If the number variables that are registered lie in range with a matching text, then in every registry that registrations and executed lines can produce, names and short names are unique ignoring case, and Int and Int64 values lie in their range and print as their text |
| CommandMap.ReachableNamesAndValues | ElDorito/Source/CommandMap.cpp:68-203 | Whatever is registered, names and short names stay unique ignoring case, and a number variable that is out of range, or whose text is not its value, is as it was registered |
| CommandMap.AddKeeps | ElDorito/Source/CommandMap.cpp:77-85 | Registration keeps names unique whichever of the two names clashes, whatever the values |
| CommandMap.ExecuteKeeps | ElDorito/Source/CommandMap.cpp:106-203 | Executing any line changes nothing but values, keeps names unique, and leaves whatever it changes consistent |
| CommandMap.FindsByName | ElDorito/Source/CommandMap.cpp:68-75 | A command is found by its name in any mixture of cases, and no other command is |
| CommandMap.AddedIff | ElDorito/Source/CommandMap.cpp:77-85 | A command is added, at the end, if and only if neither its name nor its short name is taken |
| CommandMap.NothingIsCalled | ElDorito/Source/CommandMap.cpp:106-124 | A line without a word, or whose first word is no command's name or short name, is refused with its text, and nothing changes |
| CommandMap.InternalIsHidden | ElDorito/Source/CommandMap.cpp:119-124 | Among unique names, a user's line whose first word names an internal command is answered as an unknown command, and nothing changes |
| CommandMap.MenuCommandIsQueued | ElDorito/Source/CommandMap.cpp:126-131 | Before the main menu shows, a line that calls a command which waits for it is queued, and nothing else happens |
| CommandMap.HostCommandIsRefused | ElDorito/Source/CommandMap.cpp:133-142 | In a session that somebody else hosts, a line that calls a cheat or a command for hosts is refused with the text for hosts, and nothing changes, whatever the update event would say |
| CommandMap.PlainCommandRuns | ElDorito/Source/CommandMap.cpp:144-158 | With none of the three guards in the way, a plain command's outcome is what its event answers, given the arguments, or the rest of the line if not parsing them is its only flag |
| CommandMap.VariablePrints | ElDorito/Source/CommandMap.cpp:160-164 | With none in the way, a variable alone on a line prints its value and nothing changes |
| CommandMap.NumberIsSetIff | ElDorito/Source/CommandMap.cpp:166-203 | With none in the way, an Int or Int64 variable without an event is set to the parsed number if it lies in its range, which two zero limits do not restrict; else nothing changes and the answer says why |
| CommandMap.StringIsSet | ElDorito/Source/CommandMap.cpp:166-203 | A String variable is set to the first argument, its event sees the new value, and a refusal leaves the registry as it was; the answer is the event's text, or the old and the final value |
| CommandMap.RefusalRestores | ElDorito/Source/CommandMap.cpp:166-203 | A refused update of an Int or String variable leaves the whole registry as it was |
| CommandMap.Int64RefusalRestoresIff | ElDorito/Source/CommandMap.cpp:285-295 | A refused update of an Int64 variable leaves the registry as it was if and only if its unused Int value equals the Int64 value, or is out of range while the refused value was the old one: line 287 records the wrong previous value |
| CommandMap.Int64RefusalExample | ElDorito/Source/CommandMap.cpp:287 | The concrete case: 5 is refused for 7, and the variable ends as 0 |
| CommandMap.UnparsedRestIsInside | ElDorito/Source/CommandMap.cpp:149-155 | The unparsed rest of a line that a command may ask for starts inside the line |
| ConfigFile.SaveThenLoad | ElDorito/Source/CommandMap.cpp:357-386 | Executing what SaveVariables wrote, from any other values and with either line ending, sets every archived non-internal variable to its saved value and changes nothing else, for values without quote, newline or NUL, plain names, and update events that accept the values |
| ConfigFile.NextSessionRestores | ElDorito/Source/CommandMap.cpp:68-203 | For any two sessions that register the same commands in the same order and execute whatever lines: executing in the second what the first saves gives every archived non-internal Int, Int64 and String variable its value of the first session and changes nothing else |
| ConfigFile.LoadedIsRestored | ElDorito/Source/CommandMap.cpp:261-319 | Setting an Int, Int64 or String variable to a saved text restores its saved value exactly |
| ConfigFile.BadValueIsNotRestored | ElDorito/Source/CommandMap.cpp:357-386 | No text at all sets a string variable to a value with a quote, newline or NUL that it does not hold already, so the condition on values cannot be dropped |
| ConfigFile.SavedLineExecutes | ElDorito/Source/CommandMap.cpp:357-386 | Executing one saved line sets that variable and nothing else |
| ConfigFile.ReportGoesOn | ElDorito/Source/CommandMap.cpp:370-386 | The report of a text goes on with a numbered line for its next line if and only if that line, run after all before it, fails |
| Console.Map.Find | ElDorito/Source/CommandMap.cpp:68-75 | The search loop finds the first command whose name or short name matches |
| Console.Map.AddCommand | ElDorito/Source/CommandMap.cpp:77-85 | The list grows by the command unless a name is taken |
| Console.Map.Set | ElDorito/Source/CommandMap.cpp:261-319 | Result, previous value and new value of every kind of variable; a refused value changes nothing |
| Console.Map.ExecuteCommandWithStatus | ElDorito/Source/CommandMap.cpp:106-203 | Status, output and new state of executing any line, through the tokenizer, lookup, permission checks and rollback |
| Console.Map.ExecuteCommands | ElDorito/Source/CommandMap.cpp:370-386 | The lines of a text are executed in order, and the report names the lines that failed as the source does |
| Console.Map.ExecuteList | ElDorito/Source/CommandMap.cpp:97-104 | A list of strings is executed as its quoted join |
| Console.Map.Save | ElDorito/Source/CommandMap.cpp:357-368 | The loop writes one line for each archived, non-internal variable in order |
| NameTable.OneToOneLookups | ElDorito/Source/Utils/NameValueTable.hpp:31-63 | In a table without repeated names or values, every entry is found by its name, exactly or in any case, and by its value |
| NameTable.NameReadsBack | ElDorito/Source/Utils/NameValueTable.hpp:42-63 | The name found for a value leads back to the value |
| NameTable.FirstAndLastWin | ElDorito/Source/Utils/NameValueTable.hpp:17-63 | Of several pairs, a lookup by the exact name finds the first, one by a name in any case or by value the last, and each finds one if there is one |
| NameTable.NameValueTable.constructor | ElDorito/Source/Utils/NameValueTable.hpp:17-28 | The loop fills the three maps so that lookups see, of entries with one key, the one the source keeps: the first for exact names, the last for names in any case and for values |
| NameTable.NameValueTable.FindValue | ElDorito/Source/Utils/NameValueTable.hpp:31-39 | The value of an exact name, or nothing |
| NameTable.NameValueTable.FindValueIgnoreCase | ElDorito/Source/Utils/NameValueTable.hpp:42-52 | The value of a name in any case, or nothing |
| NameTable.NameValueTable.FindName | ElDorito/Source/Utils/NameValueTable.hpp:55-63 | The name of a value, or nothing |
| BindingsRoundTrip.ActionSurvivesIff | ElDorito/Source/Modules/ModuleInput.cpp:612-673 | After executing the exported text in any table, a named action has its saved controller button and slots if and only if the slots are canonical and the button is unbound or named |
| BindingsRoundTrip.ExportThenExecute | ElDorito/Source/Modules/ModuleInput.cpp:612-673 | Whatever table it is executed in, the exported text leaves every named action with the normal form of what it was bound to, and changes no other action but VehicleExit |
| BindingsRoundTrip.VehicleExitCopiesUse | ElDorito/Source/Modules/ModuleInput.cpp:612-617 | If any action is named, executing the exported text leaves VehicleExit with what Use is bound to |
| BindingNames.GameNamesAreGood | ElDorito/Source/Modules/ModuleInput.cpp:678-858 | The four literal tables meet what the round trip needs: no name, ignoring case, and no code twice in a table, no key with the name of a mouse button, every name printable and none the word none, VehicleExit not named |
| BindingNames.GameActionSurvivesIff | ElDorito/Source/Modules/ModuleInput.cpp:612-858 | With those tables a named action has its saved controller button and slots again if and only if each slot is empty, a key alone that is not one of four codes, or a mouse button alone that is not one of three and not for movement; no secondary slot stands without a primary one; and the button is unbound or one of the sixteen |
| BindingNames.JumpIsLostExample | ElDorito/Source/Modules/ModuleInput.cpp:612-858 | The concrete table: Jump on the space bar and the left mouse button in one slot does not come back |
| BindingNames.KeyIsNamedIff | ElDorito/Source/Modules/ModuleInput.cpp:698-805 | All key codes below the count have a name but 0x46, 0x4A, 0x68 and 0x6B |
| BindingNames.MouseButtonIsNamedIff | ElDorito/Source/Modules/ModuleInput.cpp:807-816 | The mouse buttons with a name are the first five and the two of the wheel |
| BindingNames.OrderedIsOneToOne | ElDorito/Source/Modules/ModuleInput.cpp:678-858 | A table whose names' numbers grow with its codes has no name, ignoring case, and no code twice |
| Bindings.KeptIffCanonical | ElDorito/Source/Modules/ModuleInput.cpp:395-464 | The slots that printing and parsing keep are exactly the canonical ones: a key or a mouse button but not both, named codes, no secondary without a primary, no mouse button for movement |
| Bindings.KeyboardSets | ElDorito/Source/Modules/ModuleInput.cpp:395-464 | With names it knows, the command gives the action the named keys and mouse buttons, an empty first slot taking over the second; a mouse button is refused for the four keyboard actions |
| Bindings.KeyboardRefuses | ElDorito/Source/Modules/ModuleInput.cpp:395-464 | A wrong number of names, an unknown action or an unknown key changes nothing |
| Bindings.ControllerSets | ElDorito/Source/Modules/ModuleInput.cpp:353-393 | The command sets the button of a known controller action, to nothing for the word none or no name, and then copies Use to VehicleExit; everything else changes nothing |
| BindingsRoundTrip.LineSplits | ElDorito/Source/Modules/ModuleInput.cpp:619-673 | The tokenizer reads every exported line as its command and names |
| BindingCommands.RegistryDispatches | ElDorito/Source/Modules/ModuleInput.cpp:586-587 | In any registry with unique names that holds the two binding commands, executing any line calls the event of one of them with the arguments that binding is modelled with, by name or short name, exactly where the model binds |
| BindingCommands.FoundIffCalled | ElDorito/Source/CommandMap.cpp:68-75 | Among unique names, a word finds a command if and only if it is its name or short name |
| ModuleInput.InputBindings.CommandBindControllerAction | ElDorito/Source/Modules/ModuleInput.cpp:353-393 | The parallel arrays afterwards are the table with the action's button set, or unchanged on every error |
| ModuleInput.InputBindings.CommandBindKeyboardAction | ElDorito/Source/Modules/ModuleInput.cpp:395-464 | The same for the four key arrays, with an empty primary slot taking over the secondary one |
| ModuleInput.InputBindings.UpdateBindings | ElDorito/Source/Modules/ModuleInput.cpp:612-617 | VehicleExit copies Use in every array |
| ModuleInput.InputBindings.ExportBindings | ElDorito/Source/Modules/ModuleInput.cpp:619-673 | The loops print a line for each controller action and each action |
| FloodFilter.RateBound | ElDorito/Source/Server/ServerChat.cpp:205-242 | In any window of any run that starts with an empty table, the scores of one address's messages that get through sum to at most the timeout score minus one plus the seconds in the window, whatever timeouts, erasures and returns lie in between; for any settings with a positive timeout score and timeout, as long as no 32-bit number of that sender overflows |
| FloodFilter.CountBound | ElDorito/Source/Server/ServerChat.cpp:194-203 | Their number times the short score is at most, and times the long score at least, that sum, if the short score is not above the long one |
| FloodFilter.ScoreIs | ElDorito/Source/Server/ServerChat.cpp:194-203 | In the 32-bit arithmetic of the source, with the short score not above the long one, the score of a message of at most 128 characters is the short score plus its length times the number of scores, divided by 129 and rounded down |
| FloodFilter.ScoreGrows | ElDorito/Source/Server/ServerChat.cpp:194-203 | So the score grows with the length, from the short score for none to the long score for the longest message |
| FloodFilter.RateBoundIffTimeouts | ElDorito/Source/Server/ServerChat.cpp:205-242 | The bound holds of all runs from an empty table if and only if the timeout score and the timeout, read as 32-bit ints, are positive (given a message that scores at all and can reach the timeout score without overflowing) |
| FloodFilter.NoTimeoutNoFilter | ElDorito/Source/Server/ServerChat.cpp:205-242 | With a timeout that is zero, or 2^31 or more and so negative as an int, a repeated message gets through every time until the score overflows |
| FloodFilter.HugeTimeoutExample | ElDorito/Source/Server/ServerChat.cpp:226-228 | The concrete run: with a timeout of 2^31 seconds five short messages get ten points through at once |
| FloodFilter.FilterInRange | ElDorito/Source/Server/ServerChat.cpp:205-242 | With sane settings and as long as the elapsed seconds are in range, a message meets no 32-bit limit and leaves its sender's entry bounded |
| FloodFilter.FilterIsIntended | ElDorito/Source/Server/ServerChat.cpp:205-242 | Where nothing overflows, the filter computes its intended result in unbounded numbers |
| FloodFilter.InRangeIsUnwrapped | ElDorito/Source/Server/ServerChat.cpp:205-242 | With sane settings nothing overflows in any run whose elapsed seconds are in range |
| FloodFilter.RateBoundInRange | ElDorito/Source/Server/ServerChat.cpp:205-242 | So the rate bound holds under a condition that can be checked beforehand |
| FloodFilter.ErasingIsInvisibleInRange | ElDorito/Source/Server/ServerChat.cpp:375-394 | So does the equality of the two tables |
| FloodFilter.PassesClosedForm | ElDorito/Source/Server/ServerChat.cpp:375-393 | n one-second passes lower score and timeout by n down to zero, count the reset down only after the timeout, and forget the next timeout when the reset is over |
| FloodFilter.IdleIsFresh | ElDorito/Source/Server/ServerChat.cpp:389-391 | A pass leaves an entry that is erased if and only if it leaves a default one |
| FloodFilter.ErasingIsInvisible | ElDorito/Source/Server/ServerChat.cpp:375-394 | At every event of every run the pruned table and one from which nothing is ever erased hold the same entry for a sender, so they throw out the same messages; for any timeout and reset that are not negative as ints, zero included, as long as no 32-bit number of that sender overflows |
| FloodFilter.TickInParts | ElDorito/Source/Server/ServerChat.cpp:358-395 | Ticking twice gives the same table, remainder and clock as ticking once at the later time, through 32-bit wrap-around of the clock |
| FloodFilter.TickAccounts | ElDorito/Source/Server/ServerChat.cpp:358-395 | A thousand milliseconds for each pass made, and what is left over, add up to what has gone by, through wrap-arounds of the clock; less than a second is left over |
| FloodFilter.TimeoutsDouble | ElDorito/Source/Server/ServerChat.cpp:205-242 | A sender who has run out a timeout and reaches the threshold again before the reset is over is timed out for twice as long; one who comes back later, for as long as the first time |
| FloodFilter.ChatFilter.FilterMessage | ElDorito/Source/Server/ServerChat.cpp:205-242 | The entry of the address afterwards, fresh if there was none, and whether the message is thrown out |
| FloodFilter.ChatFilter.UpdateEntries | ElDorito/Source/Server/ServerChat.cpp:375-393 | The loop that erases while it iterates leaves exactly the entries that are not idle, each one second older |
| FloodFilter.ChatFilter.Tick | ElDorito/Source/Server/ServerChat.cpp:358-395 | One pass for each full second of carry plus elapsed time, and the remainder is kept |
| MapVoting.ReachableBallots | ElDorito/Source/Server/VotingSystem.cpp:236-296 | In every state reached while the settings change as they like, also during a ballot: a ballot and a start countdown are never both open, idle means neither is, no ballot means no stored votes, and an open ballot has zero counts and at most five options numbered in order, a revote only last, the others from the pool, no two ordinary ones duplicates at the level the ballot was opened with |
| MapVoting.StepIsSound | ElDorito/Source/Server/VotingSystem.cpp:329-457 | Every tick, new vote, stored vote and reset keeps that invariant, under whatever settings are in force at that step, also with a stale revote flag |
| MapVoting.PickedAreDrawn | ElDorito/Source/Server/VotingSystem.cpp:272-283 | Drawing again for duplicates yields exactly the wanted number of options from the pool, numbered in order and pairwise distinct at the duplication level |
| MapVoting.TakenIff | ElDorito/Source/Server/VotingSystem.cpp:272-283 | A draw is made again if and only if an option picked before has the same map or the same type at level zero, or both at level one |
| MapVoting.OpensIff | ElDorito/Source/Server/VotingSystem.cpp:329-391 | A ballot is opened and announced if and only if a hosted tick finds players in the lobby of an idle server or a revote pending, or a host calls a new vote; what was chosen before is then no longer waited for |
| MapVoting.DecidedIff | ElDorito/Source/Server/VotingSystem.cpp:329-391 | A hosted tick with players decides an open ballot if and only if its time is over and no revote is pending, announcing the winner and preparing the game unless the revote wins; nothing else chooses a winner |
| MapVoting.GameStartsIff | ElDorito/Source/Server/VotingSystem.cpp:360-369 | A hosted tick with players in a server that is not idle starts the game, and closes the countdown, if and only if a winner was chosen longer ago than the delay; no other event starts a game |
| MapVoting.IdleIff | ElDorito/Source/Server/VotingSystem.cpp:329-358 | A hosted tick leaves the server idle if and only if nobody is there, which forgets everything, and nothing else changes whether it is idle |
| MapVoting.GameFollowsWinner | ElDorito/Source/Server/VotingSystem.cpp:329-391 | In every run from the start, a game is started only after a winner was chosen and the game prepared for it, with no ballot, reset or cancel in between |
| MapVoting.RevoteStep | ElDorito/Source/Server/VotingSystem.cpp:236-249 | A revote wins only if the number used was below the number allowed when its ballot was opened; nothing but that raises the number and nothing but a reset clears it |
| MapVoting.RevoteBound | ElDorito/Source/Server/VotingSystem.cpp:236-264 | Without a reset and with a fixed number of revotes allowed, the number used grows by exactly the ballots a revote won and never exceeds the limit, so more ballots than revotes left decide at least one map |
| VotingResults.TallyCountsLatestVotes | ElDorito/Source/Server/VotingSystem.cpp:425-457 | Whether a vote is taken depends on the number of options at that time; if it is, the tally sent counts the latest vote of every name once, and its entries and the ignored votes sum to the number of names |
| VotingResults.EveryVoteOnce | ElDorito/Source/Server/VotingSystem.cpp:218-228 | For any votes and number of options, counts and ignored votes sum to the number of names |
| VotingResults.WinnerFollowsVotes | ElDorito/Source/Server/VotingSystem.cpp:236-264 | A decision, under whatever settings: no option has more votes than the winner, it is that option that is announced and set up, and the last thing sent was the ballot or a tally in which no option has more votes |
| VotingResults.UntalliedBallot | ElDorito/Source/Server/VotingSystem.cpp:236-264 | A ballot that is decided without a tally since it was opened is decided by the votes carried over to it by a pending revote, or by none; then sorting may leave any option as the winner, and a stable sort the last one |
| VotingResults.WinnersOfAnySort | ElDorito/Source/Server/VotingSystem.cpp:230-240 | What sorting by count may leave as the winner is exactly the options with the most votes |
| VotingResults.WinsEverySortIff | ElDorito/Source/Server/VotingSystem.cpp:230-240 | An option, such as the latest of those with the most votes, wins under every sort if and only if no other has as many votes, so the documented rule for ties does not follow from std::sort |
| VotingResults.EarlierMayWinTie | ElDorito/Source/Server/VotingSystem.cpp:230-240 | A reachable ballot without votes on which sorting may leave the map instead of the later revote |
| VotingResults.StableSortAwardsLatest | ElDorito/Source/Server/VotingSystem.cpp:230-240 | With a stable sort the winner is the latest of the options with the most votes, as the comment says |
| VotingResults.StableSortIs | ElDorito/Source/Server/VotingSystem.cpp:239 | Insertion sort permutes, sorts by count and keeps the order of equal counts |
| VotingResults.NewBallotIsUnvotedIff | ElDorito/Source/Server/VotingSystem.cpp:371-377 | A ballot opens without votes if and only if it is not opened by a pending revote over an open ballot that has been voted on |
| VotingResults.VotesCanBeCarriedOver | ElDorito/Source/Server/VotingSystem.cpp:104-110 | A concrete run, since Reset does not clear the flag, in which a vote counts for a ballot its voter has not seen |
| VotingSystem.Voting.CountVotes | ElDorito/Source/Server/VotingSystem.cpp:218-228 | Adds to every option the number of names that vote for it, in any order of the names |
| VotingSystem.Voting.FindWinner | ElDorito/Source/Server/VotingSystem.cpp:236-264 | Leaves some order sorted by the counts and decides for its last option |
| VotingSystem.Voting.StartVotingNow | ElDorito/Source/Server/VotingSystem.cpp:267-296 | Replaces the options by a drawn ballot, with a revote while one is left, unless idle |
| VotingSystem.Voting.Tick | ElDorito/Source/Server/VotingSystem.cpp:329-391 | Does one step of the machine and keeps the invariant, also under settings other than those of the open ballot |
| VotingSystem.Voting.StartVote | ElDorito/Source/Server/VotingSystem.cpp:411-419 | Resets and opens a ballot if this is the host |
| VotingSystem.Voting.LogOneVote | ElDorito/Source/Server/VotingSystem.cpp:425-457 | Stores the vote, sends the tally in an array of five, and clears the counts; votes beyond the limit in force, compared as unsigned numbers, are dropped |
| ChatVotes.PassesExactlyWhen | ElDorito/Source/ChatCommands/ChatCommand.cpp:261-294 | A vote passes exactly with the event by which as many distinct players have said yes since it started as were needed then, and what passes is what it was started for |
| ChatVotes.FailsExactlyWhen | ElDorito/Source/ChatCommands/ChatCommand.cpp:202-217 | A vote fails if and only if the game ends or a tick finds its time over while its command is enabled |
| ChatVotes.StepIsSound | ElDorito/Source/ChatCommands/ChatCommandMap.cpp:118-195 | Every event keeps: at most one command is being voted on, its yes-voters are distinct, not nobody and fewer than needed, and none is outside a game |
| ChatVotes.ReachableVotes | ElDorito/Source/ChatCommands/ChatCommandMap.cpp:118-195 | So from the start on, whatever happens: at most one command is being voted on, only in a game, and its yes-voters are distinct and fewer than needed |
| ChatVotes.OpenVote | ElDorito/Source/ChatCommands/ChatCommand.cpp:261-294 | Until something comes of a vote, its list holds exactly the players who have said yes since it started, and what it needs does not change |
| ChatVotes.StartedVoteIsFresh | ElDorito/Source/ChatCommands/ChatCommand.cpp:227-258 | A vote starts only in a game, when no other is running and its command is enabled, and starts without voters; the votes it needs are one more than the percentage of the other players, rounded down |
| ChatVotes.StartsIff | ElDorito/Source/ChatCommands/ChatCommand.cpp:227-258 | A message starts a vote if and only if it is said in a game in which nobody is voting, is not one of the three questions, names an enabled command with arguments that are accepted, and its sender has not started a vote within ninety seconds |
| ChatVotes.ActiveInGame | ElDorito/Source/ChatCommands/ChatCommandMap.cpp:18-47 | In every run commands are heard exactly if of the starts and ends of games the latest was a start |
| ChatVotes.StartsAreApart | ElDorito/Source/ChatCommands/ChatCommandMap.cpp:81-97 | Between ends of a game, two starts by one player are at least ninety seconds apart, whatever happens in between |
| ChatVotes.VotesNeededIff | ElDorito/Source/ChatCommands/ChatCommand.cpp:246-248 | The votes needed are between one and the number of players if and only if there is a player (with none, the unsigned arithmetic wraps) |
| ChatVotes.VotesNeededIs | ElDorito/Source/ChatCommands/ChatCommand.cpp:246-248 | The votes needed, less one, are the percentage of the other players rounded down, in the unsigned arithmetic of the source |
| ChatCommands.ChatCommand.ProcessVote | ElDorito/Source/ChatCommands/ChatCommand.cpp:261-294 | Counts a yes once for each player, and tells whether the vote has passed and ended |
| ChatCommands.ChatCommand.Tick | ElDorito/Source/ChatCommands/ChatCommand.cpp:202-217 | Ends the vote if and only if the command is enabled and its time is over |
| ChatCommands.ChatCommandMap.HandleChatMessage | ElDorito/Source/ChatCommands/ChatCommandMap.cpp:118-195 | A message goes to the running vote, or starts the command it names, or is a question; no other command object changes |
| ChatCommands.ChatCommandMap.ProcessMessage | ElDorito/Source/ChatCommands/ChatCommand.cpp:227-258 | Starts a vote if the command is enabled, its argument accepted and the player's cooldown over |
| ChatCommands.ChatCommandMap.AddToVoteTimes | ElDorito/Source/ChatCommands/ChatCommandMap.cpp:81-97 | Records the time of a start if and only if the last one is ninety seconds ago or there is none |
| ChatCommands.ChatCommandMap.Tick | ElDorito/Source/ChatCommands/ChatCommandMap.cpp:98-110 | Ticks every command in turn while a game is on |
| ChatCommands.ChatCommandMap.GameEnded | ElDorito/Source/ChatCommands/ChatCommandMap.cpp:29-48 | Forgets the cooldowns and fails every running vote |
| Rectangles.IntersectionIsCommon | ElDorito/Source/Utils/Rectangle.cpp:11-37 | The intersection holds exactly the common pixels, and Intersects tells exactly whether there are any |
| Rectangles.SumIsLeast | ElDorito/Source/Utils/Rectangle.cpp:49-64 | The sum covers both rectangles and lies in every rectangle that does |
| Rectangles.OneCall | ElDorito/Source/Utils/Rectangle.cpp:73-77 | Where the strides allow one call, it gives the same buffer as copying line by line, wherever the lines lie in memory |
| Rectangles.CopiedByte | ElDorito/Source/Utils/Rectangle.cpp:66-88 | For blocks inside the rows of their buffers, every byte inside the target block is the corresponding byte of the source, and every other byte is untouched |
| Rectangles.Copy | ElDorito/Source/Utils/Rectangle.cpp:66-88 | Both paths write in place what copying line by line writes, with every access in bounds, for any rectangle whose lines lie in memory even if they run from one row into the next |
| Compositor.BlitPixel | ElDorito/Source/Utils/Rectangle.cpp:66-88 | The same pixel by pixel for four-byte pixels |
| Compositor.PaintKeepsComposite | ElDorito/Source/Web/WebRendererHandler.cpp:125-175 | If the texture shows the popup over the page, it shows it over the new page after every paint in which the page differs only in the dirty rectangles, and every pixel that changes lies in the recorded dirty rectangle |
| Compositor.PaintViewPixel | ElDorito/Source/Web/WebRendererHandler.cpp:125-175 | Pixel by pixel and from any state: a paint makes right what it touches and keeps right what has not changed, the popup's redrawing stays in the dirty rectangle that it does not add to, and that rectangle only grows |
| Compositor.FullPaintRestores | ElDorito/Source/Web/WebRendererHandler.cpp:110-116 | A paint of the whole page makes the texture right whatever it showed, which is why hiding the popup asks for one |
| Compositor.PaintPopupPixel | ElDorito/Source/Web/WebRendererHandler.cpp:149-161 | A paint of the popup whose rectangles lie on the page makes right the shown pixels it touches, keeps right the others unless the popup has never been painted, and changes only pixels in the dirty rectangle |
| Compositor.StaysInPlaceIff | ElDorito/Source/Web/WebRendererHandler.cpp:149-161 | Painting a part of a shown popup, every byte of which lands in the texture, changes nothing but the place of that part, whatever the image, if and only if the part does not reach beyond the left or right edge of the page; else its rows run on into the neighbouring rows |
| Compositor.OverhangExample | ElDorito/Source/Web/WebRendererHandler.cpp:149-161 | The concrete page of two by two pixels: painting a popup beyond the right edge recolours a pixel of the next row, outside the recorded rectangle |
| Rectangles.FilledByte | ElDorito/Source/Utils/Rectangle.cpp:66-88 | Copying from a buffer of equal bytes fills every line of the target, wherever the lines lie in memory |
| Compositor.PopupDirtyIsEnough | ElDorito/Source/Web/WebRendererHandler.cpp:144-147 | Every pixel of the popup that was painted over lies in the part that is redrawn |
| Compositor.PopupDirtyIsInside | ElDorito/Source/Web/WebRendererHandler.cpp:144-147 | That part lies in the popup and in any rectangle that covers the dirty ones |
| CompositorRuns.CompositeThroughoutIff | ElDorito/Source/Web/WebRendererHandler.cpp:110-233 | All through any run of page and popup paints, showing, hiding and resizing, the texture shows the popup over the page if and only if it does at the start and every event is harmless where it happens, with harmless spelled out for each event as a condition on colours |
| CompositorRuns.StepKeepsIff | ElDorito/Source/Web/WebRendererHandler.cpp:110-213 | Each single event keeps the composite if and only if it is harmless |
| CompositorRuns.FullPaintRecovers | ElDorito/Source/Web/WebRendererHandler.cpp:110-116 | After a paint of the whole page the composite is right, whatever went wrong before, as long as what follows is harmless |
| CompositorRuns.ChangesAreRecorded | ElDorito/Source/Web/WebRendererHandler.cpp:125-233 | Between uploads, and without a resize, every pixel that looks different lies in the recorded rectangle |
| WebRendererHandler.Handler.OnPaint | ElDorito/Source/Web/WebRendererHandler.cpp:125-175 | The loop over dirty rectangles leaves texture, popup data, flags and dirty rectangle as the model has them, also for a shown popup that reaches beyond the page as long as its bytes land in the texture; an empty texture leaves everything alone |
| WebRendererHandler.Handler.OnPopupSize | ElDorito/Source/Web/WebRendererHandler.cpp:118-123 | The popup's buffer gets the new size, keeps its old bytes as far as they fit and has zeros behind them, and counts as unpainted |
| WebRendererHandler.Handler.Resize | ElDorito/Source/Web/WebRendererHandler.cpp:193-213 | The texture gets the new size and is cleared; an empty size is refused |
| PlayerName.SanitizePlayerName | ElDorito/Source/Patches/Network.cpp:658-696 | The overwriting loop leaves, padded with NULs, the stored name of the model; its bound on inserting a space never keeps one out |
| PlayerName.SanitizedIsTidy | ElDorito/Source/Patches/Network.cpp:658-696 | The result has only allowed characters, no space at either end and no two in a row, and is no longer than the input |
| PlayerName.LettersStay | ElDorito/Source/Patches/Network.cpp:658-696 | The visible characters other than quotes, angle brackets and slashes stay, in their order, and no others come in |
| PlayerName.BetweenLetters | ElDorito/Source/Patches/Network.cpp:658-696 | Whatever stands between two of them leaves one space if there is a space in it, and else nothing |
| PlayerName.StoredLetters | ElDorito/Source/Patches/Network.cpp:658-696 | The stored name has the letters of the first fifteen characters up to a NUL; without any it is Forgot |
| PlayerName.UnchangedIffTidy | ElDorito/Source/Patches/Network.cpp:658-696 | A name is left as it is if and only if it is tidy |
| PlayerName.Idempotent | ElDorito/Source/Patches/Network.cpp:658-696 | The stored name is not empty, fits with its NUL, and is not changed by sanitizing it again |
| BanList.SavedReadsBackIff | ElDorito/Source/Server/BanList.cpp:48-98 | Reading what was saved gives back exactly the saved addresses, and no identifiers, if and only if every address is non-empty, holds no space, number sign or newline, and does not end in white space |
| BanList.SavedReads | ElDorito/Source/Server/BanList.cpp:48-98 | For addresses of one word each, what comes back is the set of their trimmed forms without the empty ones |
| BanList.ReadsOnlyWords | ElDorito/Source/Server/BanList.cpp:48-82 | No text at all adds an address with a space, number sign or newline |
| BanList.WordsRead | ElDorito/Source/Server/BanList.cpp:48-82 | A line adds its second word to the addresses after the word ip, to the identifiers after uid if it is one, and nothing after any other word or alone; what follows the second word does not matter |
| BanList.CommentsDoNotMatter | ElDorito/Source/Server/BanList.cpp:48-82 | Indentation and a comment behind an address do not matter, and a line that is only a comment adds nothing |
| BanList.List.ReadStream | ElDorito/Source/Server/BanList.cpp:48-82 | The loop adds what every line of the stream adds |
| BanList.List.SaveStream | ElDorito/Source/Server/BanList.cpp:84-98 | The printed text lists every address once, in the order of the set |
| BanList.SplitString | ElDorito/Source/Utils/String.cpp:236-246 | The getline loop collects the pieces between delimiters; one at the end starts no further piece |
| InputContexts.ReachableIsSound | ElDorito/Source/Patches/Input.cpp:80-97 | In every reachable state exactly the top of the stack is active, every context's activations and deactivations alternate and it is ticked only while active, a pending end means there is a context, and the engine's flags are all blocked while there is one and the game's latest requests otherwise |
| InputContexts.StepIsSound | ElDorito/Source/Patches/Input.cpp:138-229 | Every push, tick and request keeps that invariant, whatever the contexts return or push |
| InputContexts.EndedIsPoppedIff | ElDorito/Source/Patches/Input.cpp:165-220 | After a game or interface tick in which a context ends, and any interface ticks, pushes and block requests, the next game tick takes off the one that ended if and only if nothing was pushed during or after that tick; otherwise the ended one stays |
| InputContexts.PushedIsPoppedExample | ElDorito/Source/Patches/Input.cpp:165-188 | The concrete run: a context pushes another one in the tick in which it ends, and it is the new one that is taken off |
| InputContexts.InputHooks.PushContext | ElDorito/Source/Patches/Input.cpp:80-97 | Blocks everything or deactivates the top, then activates the new context |
| InputContexts.InputHooks.SetFlags | ElDorito/Source/Patches/Input.cpp:155-163 | Sets all block flags at once |
| InputContexts.InputHooks.PopContext | ElDorito/Source/Patches/Input.cpp:138-153 | Deactivates the top and re-activates the one below, or restores the game's requests |
| InputContexts.InputHooks.UpdateInputHook | ElDorito/Source/Patches/Input.cpp:165-188 | Takes off an ended context, then ticks the top unblocked or runs the default handlers |
| InputContexts.InputHooks.UiInputTick | ElDorito/Source/Patches/Input.cpp:190-200 | Ticks the top, if any, unblocked, and blocks again |
| InputContexts.InputHooks.BlockInputHook | ElDorito/Source/Patches/Input.cpp:222-229 | Records the game's request, and passes it on only while there is no context |

## Left out

- Everything that calls or patches fixed engine addresses: reading bits, the slow path of writing them and blocks of bytes are modelled as a bit queue; what the engine does past the end of a stream is not.
- BitWindow.Window.WriteBits: shifts by 0 and by 64 bits are undefined in the source and not modelled.
- Ranged reads with a minimum other than zero: the source does not add the minimum back, and every use passes zero.
- Console.Map.ExecuteCommands: the queue that runs commands once the main menu shows is filled but its later run is not modelled; nor are help texts and descriptions.
- ConfigFile.SaveThenLoad: says nothing of the values of Float variables, whose decimal printing loses precision; printing and parsing them are parameters.
- BindingsRoundTrip.ActionSurvivesIff: for name tables free of repeated, unprintable and clashing names that do not name VehicleExit, as the literal ones are (BindingNames.GameNamesAreGood).
- Replication.ReceiveUpdates: the display text of numeric variables and the calls of update events are not part of a peer's state.
- Synchronizer.Host.Synchronize: the hash that makes an ID from two names is a parameter.
- Packets.SentPacketArrivesIff: sending, routing to a channel and dispatching to a handler are plumbing around the codec.
- FloodFilter.RateBound: as long as no 32-bit number of the sender overflows along the run; for sane settings that is so within a span of seconds (more than thirteen years with the default settings), FloodFilter.RateBoundInRange.
- FloodFilter.ErasingIsInvisible: under the same condition on overflows, discharged by FloodFilter.ErasingIsInvisibleInRange.
- MapVoting.StepIsSound: the loop that draws again for duplicates need not end on a small pool; steps are those for which the draws are enough. The map identifier of the revote option, which the source leaves unset, is zero.
- Loading vote options from JSON, the pool's defaults, and messages to players who join during a vote.
- ChatVotes.StepIsSound: whether the arguments of a command are accepted is an input; a message that is nothing but the exclamation mark, for which the source reads a null pointer, does nothing in the model.
- ChatCommands.ChatCommandMap.HandleChatMessage: where the source would read that null pointer, in a game and with no vote running, the method is not called.
- ChatVotes.OpenVote: a player is known by the identifier that the source finds at the sender's peer index in its table of players; whether that is the sender's own is a matter of the session.
- FloodFilter.ChatFilter.FilterMessage: is called, in the source, only while the filter is enabled and for messages of remote peers; the guard is not part of the model.
- ChatVotes.VotesNeededIff: for fewer than forty million players; so are the bounds of ChatVotes.VotesNeededIs and ChatVotes.StartedVoteIsFresh.
- Compositor.PaintKeepsComposite: dirty rectangles lie in the page and the texture has the size of the page, as the browser promises. Locking is not modelled.
- WebRendererHandler.Handler.OnPaint: a shown popup some of whose bytes would not land in the texture at all is not modelled.
- BanList.SavedReadsBackIff: identifiers are not printed by the source, so none come back; how one is parsed is a parameter. The list of temporary bans is left out.
- Networking, HTTP, the web interface's message routing, cryptography, threads, camera and graphics settings: library calls or single-branch setters.
- Base64Decode, which maps every character to itself, has no round trip to prove.
