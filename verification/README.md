# A verified model of the core of Atheme services

Atheme is a set of services for IRC networks. This project models the algorithms of its core library
(`libathemecore`) in Dafny and proves what they are for. `dafny verify dfyconfig.toml` checks all of it.

The form follows the program. Records that the program updates in place are classes whose methods
reassign their fields, loops are loops, and buffers that are edited in place are arrays (the mode
stacker, the mask buffer of `collapse`, the DNS message, the name buffers, the MD5 block, the shift in
`inet_pton6`). Beside each stands a specification by functions, and the properties are lemmas about
these functions and invariants of the classes.

**Channel modes** (`cmode.c`; `CaseMap`, `Text`, `ChannelModes`, `ModeEffects`, `PendingModes`, `ModeLine`,
`StackRuns`, `ModeStack`, `LocalModes`, `ChannelMode`, `ServicesRun`). The mode stacker batches mode requests
into flag masks, a limit slot, ext slots and an ordered parameter list, and prints one MODE line for many
requests; `channel_mode` reads such lines. The stacker is an optimising compiler and the parser its interpreter.
The main theorem says that for any run of requests, over any sources and channels, reading the lines printed
does what the requests do one by one. It rests on three facts proved separately: merging a request into a batch
is doing it afterwards, printing a batch keeps its meaning, and the limits (MAXMODES, 512 bytes) are respected
in every reachable state, so that the overflow branch of the flush is dead code. What a request and a letter do
to a channel is told besides part by part, and these statements admit no other effect. The parser, run on lines
of our own users, issues requests itself; whether these tell the network all that changed has an exact answer:
they do unless the line starts with unsigned letters of set flags that it does not name again behind a sign. The
parser takes these for removals and the stacker drops them for want of a direction.

**Masks** (`match.c`; `Glob`, `GlobExact`, `GlobSearch`, `Collapse`, `CollapseExact`, `CollapseRead`). `match`
is proved against a recursive definition of what a mask matches. A shortcut at the end of the mask makes it
accept too much: `a*#` matches `a1b`. The project states which mask the code really matches, and proves it is
the mask given exactly when the last star is not followed by `?`, `&` and `#` with a `&` or `#` among them. The
iteration limit only makes it refuse, and only for a mask and a name whose lengths plus one multiply to more
than 513; a family of names that match shows exactly from where on they are refused. `collapse` and `match`
disagree about a star behind two backslashes; the project proves for which masks `collapse` keeps the meaning
all the same, for which the result is minimal, and for which `match` accepts the same names before and after,
each exactly.

**DNS names** (`reslib.c`; the `Dns...` modules). Packing any number of names into a message, with suffix
compression, and unpacking any of them gives the name back up to ASCII case, with the right count. The
compression misses nothing: exactly the labels in front of the longest suffix that a pointer can reach are
written out. The decoder halts on every message and its loop detection never refuses what the encoder writes.
Printing and reading names as text are inverse to each other, as functions and as the two programs.

**Access and account deletion** (`account.c`, `flags.c`; `AccessStore`, `Succession`, `SuccessionOrder`,
`ChannelRelease`, `ChannelAccess`, `FlagStrings`). Deleting an account walks its access entries, hands channels
over or drops them. The store of entries on two kinds of lists stays consistent, every remaining channel has a
founder, and where all who have access are accounts, heirs are chosen in the order +R, +f, +q, +o. Where a flag
string puts a flag is told by the last place of the string that decides about it. Two promises turn out false
and are replaced by exact statements. The masks of `flags_make_bitmasks` are disjoint exactly when every flag
that clashes at an adding `*` is decided about again. And a channel can be dropped although an account could
take it: this happens exactly when for each kind of flags the climb over the list, from one entry to the next
that beats it, ends at a group, which a group with as many flags as anybody can bring about and one with fewer
than somebody cannot. A sound store shows it happen.

**Modules** (`module.c`; `ModuleGraph`, `ModuleRegistry`). Loading runs init code that requests more modules and
symbols. Dependency lists stay inverse to each other, the graph stays acyclic, nested requests end, a failed
init leaves nothing behind, and unloading removes exactly the dependents, dependents first. A module fails to
load only if its file is missing or does not fit, it is there already, or its init code gives up, and one whose
demands can be ranked below it, and theirs in turn, always loads.

**Byte queues** (`datastream.c`, `packet.c`; `ByteChunks`, `SendQueue`, `RecvQueue`, `LineStream`). Lists of
chunks stand for byte sequences. However a stream is cut up by the network, what is parsed are the lines of the
stream, and lines that were sent come out as their texts. `recvq_getline` by itself can run past a line; the
invariant that makes it exact, newlines in the last chunk only, is part of the proof.

**Resolver** (`res.c`; `Resolver`): distinct ids, one callback for each query, and deadlines, over all runs.
That ids are never 0 is true of the first sending of a request only. **Addresses** (`cidr.c`; `IpText`,
`IpForms`, `IpExact`, `IpPrefix`, `IpMatch`): exactly the text forms of an IPv6 address are read as it, a mask
accepts exactly the addresses with its first bits, and blocks are nested or disjoint. **Hashing** (`md5.c`;
`Md5`): the state depends on the concatenated data only and the padded message is that of RFC 1321. **Base64**
(`base64.c`; `Base64`): inverse programs, and accepted texts are canonical. **Flood limiter** (`ptasks.c`;
`FloodLimit`): a bound on accepted messages over any stretch of any run, and exactly who is never refused.
`LinkedLists` and `Basics` hold what several parts share.

Assumptions, each a hypothesis of the statements or a parameter of the model:

- Mode tables: the letters of the tables are distinct, flag values are distinct bits, additions of a limit
  or an ext value are not zero or empty, and values contain no blank; additions of limit 0 or of an empty
  value are printed as deletions, so they are deletions to begin with. Values have at most 473
  characters; with one more a line can be too long and is dropped. Flags are bits of a word of 32.
- Deletion of an account starts from a store in which every channel has a founder, a channel has at most one
  entry about an entity, and levels lie within the flags in use.
- A module file is published under the name it is asked for, as all modules of the repository are. Otherwise
  a file could request itself for ever, and two modules could share a name.
- The random draws for ids, the results of `send` and `recv`, the clock and the MD5 block function are
  parameters or nondeterministic. The resolver has fewer than 65536 requests, or its search for an id would
  not end.
- Names that the program compares without regard to case are taken as already folded, except for channel
  modes and masks, where folding is modelled.

## Model

| member | source | states |
|---|---|---|
| CaseMap.FoldsAgree | libathemecore/match.c:106-120 | Folding to upper case and folding to lower case identify the same characters, in either mapping, so `irccasecmp` and `match` agree on letters. |
| CaseMap.FoldsExactly | libathemecore/match.c:36-120 | Two characters fold alike if and only if they are the same, a letter in both cases or, under the RFC 1459 mapping, one of [ \ ] ^ and the brace, bar or tilde that is its lower case. |
| Text.WordsOfLine | libathemecore/tokenize.c:126-160 | Splitting a line that was put together from words gives those words back. |
| Text.AtoiDecimal | libathemecore/cmode.c:209-212 | Reading a printed number gives the number back, for every number. |
| ChannelModes.BanFind | libathemecore/channels.c:297-313 | The position is that of the first ban of the kind whose mask is the same name up to case, or behind the last if there is none. |
| ChannelModes.FewFlags | include/channels.h:67-68 | There are at most 30 flags with a letter, as their bits differ from each other and from those of key and limit. |
| ChannelModes.InterpAppend | libathemecore/cmode.c:116-357 | Reading the letters of two strings one after the other is reading their concatenation: the parser keeps no state besides the cursor. |
| PendingModes.AddEffect | libathemecore/cmode.c:584-674 | Merging any request into a batch that has room (overwriting flags, limit and ext slots, appending parameters) makes the batch mean what it meant followed by the request. |
| PendingModes.CommuteAll | libathemecore/cmode.c:584-630 | A flag, limit or ext request commutes with all parameter requests queued, which is why the batch may print it first. |
| PendingModes.NothingEffect | libathemecore/cmode.c:456-470 | A cleared batch means no change. |
| ModeLine.LettersAreAWord | libathemecore/cmode.c:473-530 | What is printed as letters has no blank and starts with a sign, and it is empty exactly if nothing is set, removed or queued. |
| ModeLine.LineMeansBatch | libathemecore/cmode.c:473-566 | Printing keeps the meaning: reading the line printed for any valid batch changes any channel as the batch does; nothing is printed only if the batch means nothing. |
| StackRuns.FlushReads | libathemecore/cmode.c:473-566 | The network that reads a flushed line has what was still to come. |
| StackRuns.PushReads | libathemecore/cmode.c:584-674 | Each addition, with the flushes it forces, leaves what was read plus what is still to come equal to what was wanted plus this request. |
| StackRuns.StepsRead | libathemecore/cmode.c:568-680 | For every run from every reachable stacker state: lines read plus batch still to come equals the requests applied one by one to the lines' and batch's starting point. |
| StackRuns.BatchingIsTransparent | libathemecore/cmode.c:473-674 | For every run of requests from any sources on any channels ended by a flush, reading all lines in order changes every channel exactly as applying each request by itself in order. |
| StackRuns.ReachableOk | libathemecore/cmode.c:594-674 | In every reachable state parameters, limit slot and used ext slots together are at most MAXMODES, at most one key is queued, and the length accounting bounds what will be printed. |
| StackRuns.LettersLength | libathemecore/cmode.c:428-453 | In every such state letters and values fit the 512-byte buffer, although the length was computed before the last addition. |
| StackRuns.RunWithinLimits | libathemecore/cmode.c:528-566 | Every line of every run has at most MAXMODES values and fits the buffer: the overflow branch is never taken and nothing is cut off. |
| StackRuns.LongerValueOverflows | libathemecore/cmode.c:537-543 | The bound on values is sharp: with 30 flag letters, as many as a word of 32 bits has beside key and limit, and a value one character longer there is a run whose batch the flush finds too long and drops. |
| ModeStack.FlagsToString | libathemecore/cmode.c:27-41 | The letters of exactly the flags given, in table order. |
| ModeStack.ExtLengths | libathemecore/cmode.c:440-446 | The number of used ext slots and the room their values take. |
| ModeStack.CountBlanks | libathemecore/cmode.c:448-451 | The number of blanks in the parameter text; `CalcLen` proves that they are as many as the parameters queued. |
| ModeStack.ScanModes | libathemecore/cmode.c:640-650 | The number of parameter letters queued and the sign in force behind the last. |
| ModeStack.Stacker.constructor | libathemecore/cmode.c:392-407 | The empty stacker, for which the invariant holds. |
| ModeStack.Stacker.CalcLen | libathemecore/cmode.c:428-453 | The three length fields are those of the batch the fields stand for. |
| ModeStack.Stacker.Clear | libathemecore/cmode.c:456-470 | The fields stand for the empty batch afterwards. |
| ModeStack.Stacker.Flush | libathemecore/cmode.c:473-566 | The line written is the text of the batch, nothing is written for an empty one, and the batch is empty afterwards; the overflow branch is proved dead. |
| ModeStack.Stacker.Init | libathemecore/cmode.c:568-582 | Another source or channel flushes first; then both are set. |
| ModeStack.Stacker.AddSimple | libathemecore/cmode.c:584-592 | The new state is the old batch with the flags moved to the other direction. |
| ModeStack.Stacker.AddLimit | libathemecore/cmode.c:594-611 | Flushes exactly when there is no room, then sets the slot. |
| ModeStack.Stacker.AddExt | libathemecore/cmode.c:613-630 | Flushes exactly when there is no room, then sets the slot. |
| ModeStack.Stacker.AddParam | libathemecore/cmode.c:632-674 | Flushes exactly when the count, the length or a second key asks for it, then queues the letter, with a sign only if the direction changes, and the value. |
| ModeStack.Stacker.ModeSimple | libathemecore/cmode.c:720-731 | One step of the run: state and lines are those of the specification of a flag request. |
| ModeStack.Stacker.ModeLimit | libathemecore/cmode.c:734-743 | The same for a limit request. |
| ModeStack.Stacker.ModeExt | libathemecore/cmode.c:746-761 | The same for an ext request. |
| ModeStack.Stacker.ModeParam | libathemecore/cmode.c:764-773 | The same for a parameter request. |
| ModeStack.Stacker.FlushOf | libathemecore/cmode.c:683-688 | The same for a flush of one channel or of all. |
| LocalModes.IssuedSaysAll | libathemecore/cmode.c:86-357 | Applying the requests that reading a MODE line of our own users passes to the stacker gives the channel as it became in memory, if and only if every flag that is set and named before the first sign is named again behind a sign. |
| LocalModes.SignedIsFaithful | libathemecore/cmode.c:120-129 | Every line that starts with a sign meets that condition. |
| LocalModes.BareLetterIsLost | libathemecore/cmode.c:143-151 | A line of one unsigned letter of a set flag removes it in memory and tells the network nothing. |
| LocalModes.AllIssuedWanted | libathemecore/cmode.c:86-357 | For every run of commands that each meet this condition and carry values the stacker takes, on any channels, the requests issued are valid and, applied in order, give the channels in memory. |
| LocalModes.NetworkFollows | libathemecore/cmode.c:86-680 | After any such run and a flush the network, reading the lines, holds the same modes, limit, key, ext modes, bans and statuses as the services. |
| ServicesRun.RunOne | libathemecore/cmode.c:86-357 | One MODE line: its channel becomes what the line says, the others stay, and the stacker is handed what it issues. |
| ServicesRun.RunCommands | libathemecore/cmode.c:86-688 | The programs together: any such run of MODE lines on channel objects and one stacker, then a flush; reading the lines sent gives for every channel exactly the state of its object. |
| ChannelMode.Channel.BanAdd | libathemecore/channels.c:221-259 | A ban is added unless one of the kind and name is listed. |
| ChannelMode.Channel.BanDelete | libathemecore/channels.c:270-282 | The first ban of the kind and name goes, if there is one. |
| ChannelMode.Channel.BanAt | libathemecore/channels.c:297-313 | The search finds the first such ban. |
| ChannelMode.SimpleLetter | libathemecore/cmode.c:131-154 | A flag letter changes the channel and passes the request on as specified. |
| ChannelMode.ExtLetter | libathemecore/cmode.c:159-194 | The same for a letter with a checked value. |
| ChannelMode.LimitLetter | libathemecore/cmode.c:199-228 | The same for the limit. |
| ChannelMode.KeyLetter | libathemecore/cmode.c:230-264 | The same for the key. |
| ChannelMode.BanLetter | libathemecore/cmode.c:266-288 | The same for a ban-like letter. |
| ChannelMode.StatusLetter | libathemecore/cmode.c:290-351 | A status letter does what one step of the specification does; which is, by ModeEffects.StepReads, to add or take this one status of the named member and nothing else. |
| ChannelMode.PassOn | libathemecore/cmode.c:150-151 | Only with a source is the request handed to the stacker, whose lines are those of one step. |
| ChannelMode.Letter | libathemecore/cmode.c:116-357 | One letter does to the channel, the cursor and the stacker what one step of the specification does. |
| ChannelMode.ChannelMode | libathemecore/cmode.c:86-357 | A whole MODE line does what reading it means, and every request issued went through the stacker in order; stated without the specification as well: along some sequence of states each letter had its effect on the one flag, slot, ban or status it names, all else kept. |
| ModeEffects.ApplyCarries | libathemecore/cmode.c:131-351 | What a request does to a channel, part by part: a flag or status is there afterwards if and only if it was added or was there and is another, a slot holds the value or nothing, a ban is listed last or the first such one is gone with the others in order; every other part is as it was. |
| ModeEffects.CarriedOnce | libathemecore/cmode.c:131-351 | These statements leave no choice: whatever state meets them is the one the request makes. |
| ModeEffects.StepReads | libathemecore/cmode.c:116-357 | What reading one letter does to the channel, the parameters used up and the direction, part by part, with the missing and the refused parameter of each kind of letter. |
| ModeEffects.ModesRead | libathemecore/cmode.c:86-357 | Reading a line is its letters doing this one after the other, from no direction; an empty line and one that starts with 0 change nothing. |
| ModeEffects.LimitIsRead | libathemecore/cmode.c:206-211 | A limit in decimal digits is read as the number, 0 as 1, up to 32 bits. |
| Glob.OneCharacter | libathemecore/match.c:187-195 | What the masks of one character match: * and ? anything, & letters, # digits, % what is neither, any other one what folds alike; an escaped one only itself, and & and # themselves as well. |
| Glob.StarsAreOne | libathemecore/match.c:163-170 | A run of stars matches what one star matches. |
| Glob.NextStar | libathemecore/match.c:150-210 | Backtracking to the last star only is enough: when a later star is reached with the part before it matched leftmost, earlier choices need not be tried again. |
| Glob.NameUsedUp | libathemecore/match.c:150-210 | When the name is used up before the part behind the last star is, no place for that part is left. |
| GlobSearch.Iterate | libathemecore/match.c:154-208 | The body of the loop does to the positions what one step of the search does. |
| GlobSearch.TurnMeans | libathemecore/match.c:154-208 | One step decides rightly, or keeps all that can still be hoped for and leaves less to do. |
| GlobSearch.VerdictMeans | libathemecore/match.c:143-212 | The same if-and-only-if about the number of steps as a function. |
| GlobSearch.Match | libathemecore/match.c:143-212 | Result 0 if and only if the recursive glob relation holds of the mask as the code reads it and the search ends within the iterations allowed; it does if (mask length + 1) * (name length + 1) is at most 513. |
| GlobSearch.RefusedExactly | libathemecore/match.c:157-160 | A name that matches can be refused: `*`, k letters a and b against n letters a and b is refused if and only if (n - k + 1) * (k + 1) is more than 512, for all 1 <= k <= n. |
| GlobSearch.RefusedThough | libathemecore/match.c:157-160 | For one, with 15 and 50 letters. |
| GlobExact.Replace | libathemecore/match.c:143-212 | Behind a common beginning that does not end in a backslash, masks that match the same names may be exchanged. |
| GlobExact.OpenEndExact | libathemecore/match.c:172-184 | The shortcut for a star followed by nothing but ? is right for every name. |
| GlobExact.LooseName | libathemecore/match.c:172-184 | For every mask whose last star is followed by ?, & and # with one & or # among them, a name that is wrongly accepted. |
| GlobExact.ExactlyWhen | libathemecore/match.c:172-184 | The mask as the code reads it matches the same names as the mask, if and only if it has no such ending. |
| Collapse.ShiftDown | libathemecore/match.c:244-245 | The overlapping copy closes the gap and keeps the rest. |
| Collapse.SkipStarsFrom | libathemecore/match.c:237-239 | Stops at the first character that is no star. |
| Collapse.GatherQuestions | libathemecore/match.c:240-243 | The question marks of a run are moved to its front, whatever stars stand between. |
| Collapse.CollapseInPlace | libathemecore/match.c:220-248 | The string left in the buffer is the specified one, and never longer. |
| CollapseExact.CollapsedMeans | libathemecore/match.c:220-248 | The collapsed mask matches exactly the names the mask matched, for every mask in which no star that `match` takes for an escaped one and `collapse` does not is followed by what loses its stars. |
| CollapseExact.KeepsExactly | libathemecore/match.c:220-248 | The collapsed mask matches exactly the names the mask matched, if and only if no star right behind a backslash that `collapse` takes for an escaped one is followed by question marks with a star among or behind them, or by stars and then, past the question marks, none. |
| CollapseExact.Loses | libathemecore/match.c:220-248 | For every other mask, a name it matches and the collapsed mask does not. |
| CollapseExact.CollapsedSpells | libathemecore/match.c:220-248 | Collapsing never drops or moves anything but stars: the shortest name a mask matches stays the same. |
| CollapseExact.SettlesExactly | libathemecore/match.c:215-248 | The collapsed mask is minimal, as the comment promises, in that collapsing again changes nothing, if and only if no star is followed by more stars and then question marks with a star among or behind them. |
| CollapseRead.ReadExactly | libathemecore/match.c:172-248 | For every mask, `match` accepts the same names before and after collapsing, if and only if the mask keeps its meaning and is not a star, then stars and question marks with a star among them, then `?`, `&` and `#` with a `&` or `#`, of which only the first star is left. |
| CollapseRead.LooseStays | libathemecore/match.c:172-248 | Apart from these, collapsing a mask that keeps its meaning never changes whether the shortcut goes wrong. |
| CollapseRead.LostForMatch | libathemecore/match.c:143-248 | The names lost by collapsing are lost for `match` too: its shortcut does not bring them back. |
| CollapseRead.ShortcutLost | libathemecore/match.c:172-248 | For one, the shortcut is used for `**#` and not for the collapsed mask `*#`. |
| CollapseExact.NoDoubleBackslash | libathemecore/match.c:220-248 | Every mask without two backslashes in a row is such a mask. |
| CollapseExact.OutOfStep | libathemecore/match.c:229-239 | A mask with two backslashes before its stars loses its only star. |
| CollapseExact.NotMinimal | libathemecore/match.c:220-248 | Collapsing once may leave a mask that collapses further. |
| DnsWire.ChainFrame | libathemecore/reslib.c:304-377 | What a chain of labels and pointers spells does not depend on bytes behind it. |
| DnsUnpack.Skip | libathemecore/reslib.c:513-557 | Skipping stops behind the root or the first pointer, fails on other label types and past the end. |
| DnsUnpack.SpellsOneName | libathemecore/reslib.c:304-377 | From one place at most one name is spelled, however many pointers are followed. |
| DnsUnpack.TrackPointer | libathemecore/reslib.c:345-362 | On a chain whose pointers lead backwards the bytes checked stay fewer than the message has: the loop detection never rejects it. |
| DnsUnpack.Unpack | libathemecore/reslib.c:304-377 | Halts on every message, looping pointers included; a result is the wire form of the name spelled, within the room given, and its count is where skipping stops; on chains with backward pointers it succeeds exactly if the name fits. |
| DnsPack.NameAtSound | libathemecore/reslib.c:871-891 | A source that passes the check is the wire form of a name of at most 255 bytes. |
| DnsPack.NameAtComplete | libathemecore/reslib.c:871-891 | And every such wire form passes. |
| DnsPack.CheckLegal | libathemecore/reslib.c:871-891 | The loop accepts exactly the legal names. |
| DnsPack.SameAt | libathemecore/reslib.c:1086-1118 | The comparison follows pointers and says whether the names are the same up to ASCII case. |
| DnsPack.FindInRun | libathemecore/reslib.c:1084-1120 | The first place of one earlier name at which the same suffix starts. |
| DnsPack.DnFind | libathemecore/reslib.c:1066-1124 | The first place, over all earlier names, at which the same name can be read and pointed to. |
| DnsCompress.FindMissesNothing | libathemecore/reslib.c:1066-1124 | The search succeeds if and only if some label in reach of a pointer, in some remembered run, says the name, and then at such a label. |
| DnsCompress.CompressedIs | libathemecore/reslib.c:893-939 | The bytes written are the labels in front of the longest suffix that is known and a pointer to a place of it, or the whole name if none is. |
| DnsCompress.PackedLength | libathemecore/reslib.c:893-939 | That decides how many bytes are written, and they are all of the name if and only if no suffix is known. |
| DnsCompress.SuffixShortens | libathemecore/reslib.c:898-909 | A name that ends in a known suffix takes the labels in front of it and two bytes, or fewer if a longer suffix is known. |
| DnsCompress.KnownStays | libathemecore/reslib.c:893-939 | What is known stays known while the message and the table grow. |
| DnsPack.CompressedReads | libathemecore/reslib.c:893-939 | Whatever suffix is found, the labels and pointer written are read back as the name up to case, along backward pointers, over as many bytes as were written. |
| DnsMessage.PackedIsReadable | libathemecore/reslib.c:304-377 | Every name packed is readable by the decoder's rules, with its size and within 255 bytes. |
| DnsMessage.AddPacked | libathemecore/reslib.c:893-939 | Packing one more name keeps the whole message in order: all earlier names stay readable and the pointer table usable. |
| DnsMessage.Kept | libathemecore/reslib.c:893-939 | Bytes written behind do not disturb what was packed. |
| DnsMessage.Message.constructor | libathemecore/reslib.c:1155-1174 | An empty message behind its header. |
| DnsMessage.Message.PackLabels | libathemecore/reslib.c:893-939 | The label loop writes the compressed form, or fails exactly for want of room; the start is to be remembered if and only if the name is not the root, no place was found for all of it, a slot is free and the start is in reach of a pointer. |
| DnsMessage.Message.Find | libathemecore/reslib.c:898-900 | The search sees the labels still to be written. |
| DnsMessage.Message.Pack | libathemecore/reslib.c:849-939 | Only legal names are packed; they are, if and only if the room is enough. What is written is the labels in front of the longest suffix that a remembered run says in reach of a pointer, and a pointer to such a place, or all of the name. The table gains the start of the name exactly if it is to be remembered. A failure keeps nothing. |
| DnsMessage.LaterNames | libathemecore/reslib.c:893-939 | Once a name was remembered, every later name that shares one of its suffixes in reach of a pointer takes at most the labels in front of the suffix and two bytes. |
| DnsMessage.Message.Put | libathemecore/reslib.c:1183-1184 | Other data between names keeps every name readable. |
| DnsMessage.Message.ReadBack | libathemecore/reslib.c:849-939 | After any number of packed names, unpacking any of them gives the same labels up to ASCII case and the number of bytes written for it, never a failure. |
| DnsText.TextRoundTrip | libathemecore/reslib.c:389-829 | For every legal name, the root included, reading the printed text gives the name back, and only the root reads as fully qualified. |
| DnsText.TextIsUnique | libathemecore/reslib.c:389-478 | Different names have different texts. |
| DnsText.ParseDotted | libathemecore/reslib.c:702-829 | Reading goes on from any labels already read. |
| DnsText.ParseEscape | libathemecore/reslib.c:440-461 | The escape printed for a byte is read as that byte. |
| DnsText.EscapedExactly | libathemecore/reslib.c:440-466 | A byte is printed behind a backslash if and only if it is one of " . ; backslash ( ) @ $, as a backslash and the three digits of its value if and only if it is not visible, and otherwise as itself. |
| DnsText.TextHasNoNul | libathemecore/reslib.c:389-478 | A printed name has no byte that would end a C string. |
| DnsNames.Ntop | libathemecore/reslib.c:389-478 | Writes the text and its terminator, and fails exactly if they do not fit. |
| DnsNames.Pton | libathemecore/reslib.c:702-829 | Returns what the text parses to, with the wire form in the buffer; never writes past it. |
| DnsNames.PrintAndRead | libathemecore/reslib.c:389-829 | The two programs one after the other: for every legal name and any text buffer, printing fails exactly if the text does not fit, and otherwise reading gives back the same bytes, with 1 for the root only. |
| DnsNames.Compress | libathemecore/reslib.c:941-950 | Text in, compressed name out: succeeds only for texts that parse, and appends the name they parse to. |
| DnsNames.Expand | libathemecore/reslib.c:266-297 | Compressed name in, text out, for every name packed earlier; fails exactly if the text does not fit. |
| AccessStore.CountOneIsOnly | libathemecore/account.c:1081-1107 | If a flag is counted once, no two entries have it. |
| AccessStore.CountAnother | libathemecore/account.c:1081-1107 | If it is counted more than once, another entry than any given one has it. |
| AccessStore.FounderStays | libathemecore/account.c:245-290 | Without an entry that is not about the only founder, the channel still has one. |
| AccessStore.DropSound | libathemecore/account.c:1395-1419 | Taking entries off all lists keeps both kinds of lists mirrored, free of repetitions and one entry for each pair. |
| AccessStore.DropFromChan | libathemecore/account.c:1404 | Deleting the list node is the whole effect on the channels' lists. |
| AccessStore.DropFromEnt | libathemecore/account.c:1406-1408 | And on the entities' lists; a hostmask entry is on none. |
| AccessStore.DropChanSound | libathemecore/account.c:994-1019 | A channel that goes with all its entries leaves the store sound. |
| AccessStore.AddSound | libathemecore/account.c:1441-1478 | A new entry for a pair that has none keeps the store sound. |
| AccessStore.RegisteredFounded | libathemecore/account.c:1021-1046 | A new channel with its founder's entry keeps every channel with a founder. |
| AccessStore.SetLevelSound | libathemecore/account.c:1945-1950 | So does a change of level within the flags in use. |
| Succession.BestIsEligible | libathemecore/account.c:1156-1195 | The candidate kept is an eligible entry of the list. |
| Succession.BestIsUndominated | libathemecore/account.c:1174-1188 | As soon as one entry is eligible there is a candidate, and no eligible entry has all its flags and more. |
| Succession.TiesGoToTheFirst | libathemecore/account.c:1175-1187 | Among accounts with the candidate's flags one seen recently beats one that was not; otherwise the one added first wins. |
| Succession.CandidateIsFit | libathemecore/account.c:1146-1197 | What is returned is an account of an eligible, undominated entry of the channel. |
| Succession.NoCandidate | libathemecore/account.c:1146-1197 | For every list, nobody is returned if and only if nobody is eligible or the climb ends at an entry that is not about an account: from the first eligible entry to the first behind it that has more flags, or the same and was seen recently, and so on. A group counts as seen recently when the last account before it was. |
| Succession.ClimbWins | libathemecore/account.c:1156-1195 | For every list, the candidate kept is the end of the climb. |
| Succession.WinnerDecides | libathemecore/account.c:1146-1197 | If one eligible entry has all the flags of the others, the winner is the first such entry that counts as seen recently, or else the first; nobody is returned if and only if it is not about an account. |
| Succession.NotPassedOver | libathemecore/account.c:1146-1197 | If every eligible group has fewer flags than some eligible entry, nobody is returned if and only if nobody is eligible. |
| Succession.GroupHidesAccounts | libathemecore/account.c:1170-1196 | A sound store with a channel of one founder and two eligible accounts for which no successor is found at any step: recency left over from an account makes a group win, and a group is no account. |
| Succession.SuccessorIsFit | libathemecore/account.c:1204-1241 | The successor is an eligible account of the channel, undominated among those of its kind; of a more powerful kind nobody was eligible, as long as there every group had fewer flags than somebody. |
| SuccessionOrder.EligibleMeans | libathemecore/account.c:1132-1167 | Who is eligible, told by the entries: access to the channel with the flags, neither founder nor to be kicked, and no limit or fewer founderships than the limit. |
| SuccessionOrder.MostPowerfulFirst | libathemecore/account.c:1204-1241 | Where all with access are accounts, the successor has +R if somebody who could take the channel has it; else +f if somebody has it; else +q and +O if +q is in use and somebody has both; else +o if somebody has it; else any access; and nobody among those who could with these flags has all flags of the successor and more. |
| Succession.NoSuccessor | libathemecore/account.c:1204-1241 | For every list, there is no successor if and only if for each kind of flags nobody is eligible or the climb ends at an entry that is not about an account. |
| Succession.NoSuccessorBelow | libathemecore/account.c:1204-1241 | If every eligible group has fewer flags than some eligible entry, there is no successor if and only if nobody is eligible. |
| ChannelRelease.LetGo | libathemecore/account.c:289-290 | An entry that is not about the only founder goes, nothing else changes, and every channel keeps a founder. |
| ChannelRelease.HandedOver | libathemecore/account.c:245-273 | Handing over leaves the channel as it was but for the new founder's two flags and the entry gone, every channel with a founder, and other channels alone. |
| ChannelRelease.HeirGains | libathemecore/account.c:245-274 | The entry of the heir gains founder and flags access, as far as they are in use, and loses nothing; the entry handed over goes, and all others of the channel stay. |
| ChannelRelease.ChanGone | libathemecore/account.c:276-288 | Dropping the channel takes one entry off the account's list and leaves other channels alone. |
| ChannelRelease.ReleasedLater | libathemecore/account.c:239-291 | What happens to a channel late in the loop is decided by the channel as it was before the loop. |
| ChannelRelease.ReleasedBefore | libathemecore/account.c:239-291 | And later turns leave it so. |
| ChannelRelease.OneMoreReleased | libathemecore/account.c:239-291 | Each turn settles one channel, to the heir of this turn if there is one, and leaves what was settled before and all other channels alone. |
| ChannelRelease.HeadTaken | libathemecore/account.c:240 | Each turn takes exactly the head off the account's list, so the saved next node stays valid. |
| ChannelRelease.HeirsWereAsked | libathemecore/account.c:239-291 | Over the whole run everybody who took over was an account on the channel's list from the start, neither founder nor to be kicked; and an entry has no heir if and only if its account was not the only founder or there was no successor at its turn. |
| ChannelRelease.HeirsByFlags | libathemecore/account.c:239-291 | Over the whole run, where all with access to a channel were accounts at the start, its heir is chosen in this order of flags. |
| ChannelRelease.DroppedAlthough | libathemecore/account.c:245-288 | When that founder is deleted the channel is dropped, although each of the two accounts could take it. |
| ChannelAccess.Access.constructor | libathemecore/account.c:68-114 | Nobody has access to anything. |
| ChannelAccess.Access.DeleteEntry | libathemecore/account.c:1395-1419 | The entry is off both its lists and gone. |
| ChannelAccess.Access.DeleteChan | libathemecore/account.c:994-1019 | The channel and exactly its entries are gone, from the entities' lists too. |
| ChannelAccess.Access.NumFlags | libathemecore/account.c:1081-1107 | The number of entity entries with the flag. |
| ChannelAccess.Access.CountChannels | libathemecore/entity.c:214-228 | The number of channels an entity has the flag on. |
| ChannelAccess.Access.CanRegisterChannel | libathemecore/entity.c:230-241 | Whether the entity has no limit or is below it. |
| ChannelAccess.Access.PickCandidate | libathemecore/account.c:1146-1197 | The loop with its running best finds the specified candidate; where all with access are accounts, one that could take the channel with these flags, if and only if there is one. |
| ChannelAccess.Access.PickSuccessor | libathemecore/account.c:1204-1241 | The first candidate over the kinds of flags, the most powerful first: where all with access are accounts, in the order +R, +f, +q, +o, any. |
| ChannelAccess.Access.FindLiteral | libathemecore/account.c:1594-1615 | Finds an entry of the channel about somebody if there is one. |
| ChannelAccess.Access.AddEntry | libathemecore/account.c:1441-1478 | Adds the entry, its level cut to the flags in use, to both lists; refuses channels whose name does not start with #. |
| ChannelAccess.Access.AddChan | libathemecore/account.c:1021-1046 | Adds a channel without entries unless there is one of the name. |
| ChannelAccess.Access.Register | modules/chanserv/register.c:145-155 | From a store in which every channel has a founder, one with the new channel and its founder's entry: the states deletion starts from can be built from nothing. |
| ChannelAccess.Access.Open | libathemecore/account.c:1831-1856 | The entry found, or a new one without flags if asked for; never a second one. |
| ChannelAccess.Access.Modify | libathemecore/account.c:1865-1892 | The flags that really change, refusal exactly if they or the old level go beyond what may be changed, and the new level; a flag both added and removed is toggled. |
| ChannelAccess.Access.ChangeAccess | libathemecore/account.c:1911-2004 | The same with creation and with the removal of an entry left without flags. |
| ChannelAccess.Access.MakeFounder | libathemecore/account.c:256-257 | The successor's entry gets the two founder flags that are in use; this is never refused. |
| ChannelAccess.Access.ReleaseEntry | libathemecore/account.c:239-291 | One turn: the channel goes if and only if the account was its only founder and no successor is found; if one is found, that account takes over. |
| ChannelAccess.Access.DeleteAccount | libathemecore/account.c:239-291 | Afterwards no entry names the account, the lists mirror each other, every channel left has a founder, and channels the account was not on are unchanged. Each of its entries had one turn, whose effect is given exactly: the entry goes, the channel goes, or the successor found at this turn gets the founder's flags; and at the end each channel is as its turn left it. |
| FlagStrings.MakeBitmasks | libathemecore/flags.c:145-226 | The scanning loop computes the specified masks, cut to the flags in use; a flag is in each of them if and only if the last place of the string that decides about it there says so. |
| FlagStrings.LastPlaceDecides | libathemecore/flags.c:145-226 | For every string and each of the 32 flags: it is in the added mask if and only if a letter or long name read while adding, or an adding * that enables it, is not followed by one read while removing, a removing * or =; and in the removed mask if and only if one of these, or for +b an adding *, is not followed by a letter or long name for it read while adding. |
| FlagStrings.InBoth | libathemecore/flags.c:159-205 | A flag ends up in both masks exactly if it was and is not decided again, or clashes at an adding * and is not decided again. |
| FlagStrings.DisjointExactly | libathemecore/flags.c:141-226 | The masks are disjoint, as the comment promises, if and only if every flag in use that clashes at an adding * is decided about again later. |
| FlagStrings.DisjointWithoutStar | libathemecore/flags.c:141-226 | So they are for every string without an adding *. |
| FlagStrings.EverythingThenStar | libathemecore/flags.c:164-177 | The string "=*" puts every flag that * stands for into both. |
| ModuleGraph.PathOrder | libathemecore/module.c:64-222 | Along every chain of dependencies the order in which loading was completed runs backwards. |
| ModuleGraph.Acyclic | libathemecore/module.c:378-407 | No module that another depends on depends on it, in any sound state. |
| ModuleGraph.RemoveSound | libathemecore/module.c:313-362 | Removing all dependents of something keeps the lists inverse to each other and the completion order. |
| ModuleGraph.UnloadNext | libathemecore/module.c:321-322 | Unloading the first dependent takes dependents of the module only, never the module, so the loop goes on. |
| ModuleGraph.AllGone | libathemecore/module.c:320-322 | When no dependent is left, exactly the modules that reach this one are gone. |
| ModuleGraph.OrderJoined | libathemecore/module.c:313-362 | Closing one closed set after another keeps dependents before what they depend on. |
| ModuleGraph.EmbryoGone | libathemecore/module.c:212-217 | A module whose init failed has no dependents, and unloading it takes it alone. |
| ModuleGraph.LinkedSound | libathemecore/module.c:394-400 | Adding a dependency of a module being initialised on a loaded one keeps the state sound. |
| ModuleGraph.CompletedSound | libathemecore/module.c:108 | Completing a module puts it behind all it depends on. |
| ModuleRegistry.SatisfiedStill | libathemecore/module.c:378-407 | What init code insisted on stays true while more modules are loaded. |
| ModuleRegistry.AvailableLess | libathemecore/module.c:475-500 | Each nested load has fewer files left to it, so nested requests end. |
| ModuleRegistry.Registry.constructor | libathemecore/module.c:40-49 | Nothing is loaded. |
| ModuleRegistry.Registry.LeaveHosts | libathemecore/module.c:325-334 | The module is taken off the list of everything it depends on, and of nothing else. |
| ModuleRegistry.Registry.Detach | libathemecore/module.c:325-352 | The module alone is gone from the state. |
| ModuleRegistry.Registry.Unload | libathemecore/module.c:313-362 | Ends; removes exactly the modules that reach this one, each closed once and before everything it depends on. |
| ModuleRegistry.Registry.FindPublished | libathemecore/module.c:448-460 | Finds a loaded module of the name if and only if there is one; what is published has a header that fits. |
| ModuleRegistry.Registry.LocateSymbol | libathemecore/module.c:378-407 | Succeeds exactly if the module is loaded and has the symbol; then the module being initialised depends on it, and no other dependency changed. |
| ModuleRegistry.Registry.Link | libathemecore/module.c:394-400 | Both lists get the new dependency. |
| ModuleRegistry.Registry.Request | libathemecore/module.c:475-500 | True if and only if the module is loaded afterwards, circular requests included, and always for a founded module, one whose demands rank below it and are founded in turn, with none of them being initialised; nested state is restored and no dependency of a module that was there changed. |
| ModuleRegistry.Registry.Load | libathemecore/module.c:64-117 | What is loaded has a header that fits, is the last one completed, conflicted with nothing loaded before, and everything its init code insisted on holds. A file that is there, fits and is not loaded fails only if a step of its init code gave up, and never if what it insists on is founded. Otherwise no module of that name was added; already loaded names change nothing. |
| ModuleRegistry.Registry.LoadInternal | libathemecore/module.c:123-222 | The steps of the load: header and name checks, initialisation, and removal if it fails; succeeds if the file is there, fits, is not loaded and no step gave up, and only then. |
| ModuleRegistry.Registry.RunInit | libathemecore/module.c:196-210 | After init code that succeeded each of its demands holds, though later ones ran after it, it conflicted with nothing loaded before, and what it merely asked for was tried; it fails only if a step gave up. |
| ModuleRegistry.Registry.RunOp | include/module.h:113-140 | A request or symbol macro gives up if and only if the module or the symbol is not there afterwards, the conflict macro if and only if the other module is loaded, and it changes nothing. |
| ModuleRegistry.Registry.TrySymbol | include/module.h:120-129 | The symbol macro looks, requests and looks again: it goes on if and only if the module is loaded then and has the symbol, and the dependency is recorded. |
| ByteChunks.AdvanceTakes | libathemecore/datastream.c:144-156 | Using up bytes of the first chunk, deleting or resetting it when empty, takes exactly those bytes off the front of the queue. |
| ByteChunks.HeadTells | libathemecore/datastream.c:174-188 | The first chunk alone tells whether the whole queue is empty. |
| ByteChunks.CopyIn | libathemecore/datastream.c:70-80 | As many bytes as fit are appended behind the last chunk's. |
| ByteChunks.AddChunk | libathemecore/datastream.c:84-87 | A new chunk adds room but no bytes. |
| SendQueue.Sendq.NonEmpty | libathemecore/datastream.c:174-188 | Says whether there is something to send or to shut down. |
| SendQueue.Sendq.Add | libathemecore/datastream.c:43-99 | All bytes are queued in order, or none: nothing on a dead or ending connection, and exceeding the limit marks it dead; a fixed limit bounds the bytes queued. |
| SendQueue.Sendq.Store | libathemecore/datastream.c:68-98 | Filling the last chunk and adding new ones appends exactly the bytes. |
| SendQueue.Sendq.AddEof | libathemecore/datastream.c:101-113 | The end is marked unless the connection is dead. |
| SendQueue.Sendq.Flush | libathemecore/datastream.c:115-172 | Whatever partial writes and errors occur, bytes sent followed by bytes queued stay the bytes accepted; the write end is shut down exactly if the end is marked and nothing is queued. |
| RecvQueue.LineLenExact | libathemecore/datastream.c:315-369 | `recvq_getline` takes one line, or as much as fits, or nothing yet, if and only if the line does not end with a chunk that is neither the end of the queue nor of the buffer; otherwise it takes bytes of the next line too. `GetLine` states it of the bytes it returns. |
| RecvQueue.OverrunHappens | libathemecore/datastream.c:336-368 | With such a chunk it takes bytes of the next line as well. |
| RecvQueue.NoOverrun | libathemecore/datastream.c:315-369 | With newlines in the last chunk only, it does not. |
| RecvQueue.Recvq.Length | libathemecore/datastream.c:195-207 | The number of bytes queued. |
| RecvQueue.Recvq.Get | libathemecore/datastream.c:274-313 | The first bytes of the queue, as many as asked for or all. |
| RecvQueue.Recvq.Scan | libathemecore/datastream.c:325-334 | Stops at the chunk of the first newline, or when enough bytes were seen. |
| RecvQueue.Recvq.GetLine | libathemecore/datastream.c:315-369 | For every layout of chunks: what is taken, what remains, and whether CF_NONEWLINE is set. |
| RecvQueue.Recvq.Handle | libathemecore/packet.c:35-56 | One call takes one piece of the stream and parses it, stripped, unless it continues a line that was too long. |
| RecvQueue.Recvq.Drain | libathemecore/datastream.c:262-270 | The loop ends with no piece left to be taken. |
| RecvQueue.Recvq.Put | libathemecore/datastream.c:209-272 | After any read, the invariant that ties what was parsed and what is queued to all bytes received holds again. |
| RecvQueue.ParsedAreTheLines | libathemecore/datastream.c:209-369 | However the bytes arrived, what was parsed are the lines of all bytes received; no newline and fewer than 1024 bytes are queued; bytes delivered and bytes queued are the bytes received. |
| RecvQueue.SentAreParsed | libathemecore/packet.c:35-56 | However the bytes of lines arrived, exactly the texts of the lines were parsed, in order, without their newlines and the carriage returns before them, and nothing is queued. |
| RecvQueue.Strip | libathemecore/packet.c:50-54 | What is parsed of a text with carriage return and newline, or with a newline alone behind another character, is the text. |
| LineStream.LinesAreRead | libathemecore/packet.c:35-56 | A stream of lines, none too long, is cut into these lines and parsed as their texts. |
| LineStream.PiecesSplit | libathemecore/datastream.c:209-369 | The pieces of a stream do not depend on where it is divided into what came first and the rest. |
| LineStream.PiecesCover | libathemecore/datastream.c:315-369 | Pieces and rest together are the stream. |
| LineStream.PiecesShape | libathemecore/datastream.c:315-369 | Each piece ends with its only newline or has the length of the buffer. |
| LineStream.RestIsShort | libathemecore/datastream.c:262-270 | What is left is shorter than the buffer and has no newline. |
| Resolver.SomeIdIsFree | libathemecore/res.c:539-551 | The search for an id ends while there are fewer requests than ids. |
| Resolver.ZeroIsDrawn | libathemecore/res.c:539-552 | The ids are not always nonzero: 0 can be drawn exactly when every listed request was sent and none has it. So the id of the first sending is never 0, in every reachable state, but that of a later one can be. |
| Resolver.ZeroCanBeDrawn | libathemecore/res.c:161-198 | A run that gets there: one query asked and sent, looked at each second for three seconds, is then due to be sent again and can draw 0. |
| Resolver.Resolver.constructor | libathemecore/res.c:75 | No request is outstanding. |
| Resolver.Resolver.FindId | libathemecore/res.c:421-434 | The first request with the id, if there is one. |
| Resolver.Resolver.QueryName | libathemecore/res.c:517-559 | The request gets an id that none has, not even itself before; without a question it stays unsent. |
| Resolver.Resolver.Ask | libathemecore/res.c:302-314 | The query waits in one new request, whose first id is not 0. |
| Resolver.Resolver.Remove | libathemecore/res.c:290-297 | Exactly this request goes. |
| Resolver.Resolver.DeleteQueries | libathemecore/res.c:320-334 | Exactly the requests of the query go, and are not called back. |
| Resolver.Resolver.Tick | libathemecore/res.c:161-198 | However late the look comes: requests that are due are sent again once with doubled waiting and a new id or, at the third time, called back and removed; all others stay exactly as they are, ids included, in order; and no request is given up in the 28 seconds after it was made. |
| Resolver.Resolver.Wait | libathemecore/res.c:161-198 | The clock may move on by any time between two looks; how much longer than a second that was is kept for the deadlines. |
| Resolver.Resolver.FollowUp | libathemecore/res.c:835-847 | The name found for an address is asked for with a second request of the same query. |
| Resolver.Resolver.Reply | libathemecore/res.c:742-866 | A reply touches at most the request with its id; it calls its query back once, or passes it on to the follow-up request. |
| Resolver.DoneInTime | libathemecore/res.c:161-198 | In every reachable state no request is older than 28 seconds and no query than 56, if requests are looked at every second; each second by which a look came late at most adds three and six. |
| Resolver.NotGivenUp | libathemecore/res.c:161-198 | No look removes a request in the 28 seconds after it was made. |
| Resolver.CountedOnce | libathemecore/res.c:742-866 | A query that no longer waits was called back or deleted exactly as often as it was put. |
| IpText.Pton4 | libathemecore/cidr.c:93-133 | The loop reads what the recursive definition of a dotted quad reads. |
| IpText.ShiftToEnd | libathemecore/cidr.c:216-220 | The in-place shift moves what follows "::" to the end and fills with zeros, overlapping or not. |
| IpText.Complete | libathemecore/cidr.c:199-229 | The last group and the shift, or failure, as specified. |
| IpText.Pton6 | libathemecore/cidr.c:149-229 | The loop with its cursor, token start and place of "::" reads what the recursive definition reads. |
| IpForms.GroupRead | libathemecore/cidr.c:171-180 | A group of any number of hexadecimal digits, in either case, reads as its value. |
| IpForms.QuadRead | libathemecore/cidr.c:93-133 | A dotted quad reads as its four octets, leading zeros allowed. |
| IpForms.FormsAreRead | libathemecore/cidr.c:149-229 | Every text form of an address, in full or with a run of zeros left out at the start, in the middle or at the end, with or without a dotted quad, is read as that address. |
| IpForms.EveryAddress | libathemecore/cidr.c:149-229 | For every address and every run of zero groups left out, or none, reading the text gives the address back. |
| IpExact.ReadExactly | libathemecore/cidr.c:149-229 | A text is read as an address if and only if it is one of the forms of this address: eight groups, or fewer with one "::", of hexadecimal digits up to ffff, the last two perhaps a dotted quad. |
| IpExact.ReadExactly4 | libathemecore/cidr.c:93-133 | A text is read as four bytes if and only if it is four decimal numbers up to 255 with dots between, which are the bytes. |
| IpExact.FormsOnly | libathemecore/cidr.c:149-229 | The form of each text that is accepted; a group over ffff, a second "::" and a colon at the end have none. |
| IpPrefix.MaskedBits | libathemecore/cidr.c:52-53 | Bytes masked to their first bits are equal exactly if those bits are. |
| IpPrefix.CompWithMask | libathemecore/cidr.c:45-58 | True if and only if the first bits agree, as many as the prefix says. |
| IpPrefix.BlocksNest | libathemecore/cidr.c:45-58 | Two blocks that share an address are nested, the longer prefix inside the shorter. |
| IpMatch.MatchIps | libathemecore/cidr.c:254-298 | For every mask and address text: accepted if and only if the mask has a length from 1 to the width, both texts are addresses of one kind and the first bits agree. It gives no answer exactly for a negative length between two addresses, which the code takes for a huge number of bits. |
| IpMatch.EveryMask | libathemecore/cidr.c:254-298 | For any two IPv6 addresses, whichever zero groups their texts leave out, and any length from 1 to 128, the program answers whether the first bits agree; the texts fit its buffers. |
| IpMatch.FormsMatch | libathemecore/cidr.c:254-298 | The same for any of the text forms, dotted quads and leading zeros included. |
| IpMatch.QuadsMatch | libathemecore/cidr.c:254-298 | The same for IPv4 and lengths from 1 to 32. |
| IpMatch.NoLengthRefuses | libathemecore/cidr.c:274-276 | A length that is 0 or no number refuses every address. |
| IpMatch.MasksNest | libathemecore/cidr.c:254-298 | Two masks that accept a common address are nested: what the longer accepts the shorter does. |
| IpMatch.AddressSize | libathemecore/cidr.c:93-229 | Every text that is read gives four or sixteen bytes. |
| Md5.FoldMore | libathemecore/md5.c:251-286 | The registers for a longer message follow from those before, the bytes left over and the new bytes. |
| Md5.State.constructor | libathemecore/md5.c:242-249 | The state of the empty message. |
| Md5.State.Count | libathemecore/md5.c:262-265 | The two words count bits modulo 2^64, with the carry. |
| Md5.State.Feed | libathemecore/md5.c:267-285 | Partial block, full blocks and rest are processed as one stream. |
| Md5.State.Append | libathemecore/md5.c:251-286 | After any calls the state depends on the concatenated data only: count, registers over the full blocks, and the rest in the buffer. |
| Md5.State.Finish | libathemecore/md5.c:288-311 | What was fed in the end is the padded message of RFC 1321, a whole number of blocks; the digest is the registers, low byte first. |
| Md5.WordsFirst | libathemecore/md5.c:302-303 | The length bytes are those of the 64-bit length, low byte first. |
| Md5.PaddedIsPadded | libathemecore/md5.c:291-305 | The padded message is the message, the byte 128, as few zero bytes as make whole blocks with eight more, and in these the number of bits, low byte first, modulo 2^64. |
| Md5.StartBytes | libathemecore/md5.c:246-249 | The starting registers, as bytes, are 01 23 45 67 89 ab cd ef and back. |
| Base64.EncodeTo | libathemecore/base64.c:112-170 | Gives the encoding, and fails exactly if it and its terminator do not fit. |
| Base64.AlphabetIs | libathemecore/base64.c:45-47 | A value is written as the character at its place of the string, read back from it, and no other character has a value. |
| Base64.GroupsOfFour | libathemecore/base64.c:112-166 | Each four characters stand, by their places in the string, for the number their three bytes make, the first the highest; paddings are exactly where there are no bytes. |
| Base64.DecodeTo | libathemecore/base64.c:178-293 | A result is what the text without white space decodes to; with room above its length it is found. |
| Base64.PadEnds | libathemecore/base64.c:246-282 | Accepts exactly the padding that the position asks for, with white space anywhere. |
| Base64.EncodedDecodes | libathemecore/base64.c:112-293 | Decoding an encoding gives the bytes back, for all bytes, where the text is taken as it is. |
| Base64.EncodeIsDense | libathemecore/base64.c:112-170 | An encoding has no white space for the decoder to drop. |
| Base64.EncodeAndDecode | libathemecore/base64.c:112-293 | The two programs one after the other: with room for four characters for three bytes and a terminator, and a target larger than the bytes, the bytes come back, for all bytes. |
| Base64.AcceptedIsEncoding | libathemecore/base64.c:178-293 | A text that decodes is the encoding of what it decodes to: stray bits are refused. |
| Base64.CanonicalExactly | libathemecore/base64.c:112-293 | A text decodes to some bytes if and only if, without white space, it is their encoding. |
| FloodLimit.Sender.constructor | include/users.h:32-34 | A user who has sent nothing. |
| FloodLimit.Sender.Check | libathemecore/ptasks.c:836-944 | What one message does to the three fields, and whether it is ignored, for all settings. |
| FloodLimit.Sender.AddFlood | libathemecore/ptasks.c:946-950 | Extra weight is added to the count only. |
| FloodLimit.StagesInOrder | libathemecore/ptasks.c:836-944 | Over any run offenses stays in 0, 11, 1, 12, 2 and never goes back to an earlier one. |
| FloodLimit.ThirtySeconds | libathemecore/ptasks.c:866-878 | Who is ignored has nothing accepted for 30 seconds, however much is sent, and sending does not make it longer. |
| FloodLimit.BackAfterThirty | libathemecore/ptasks.c:866-878 | A message after the 30 seconds is accepted, with a count of one message and one or two offenses on record. |
| FloodLimit.OverTheLimit | libathemecore/ptasks.c:887-941 | A message over flood_msgs and what the rate allows is refused: the first two times the count is given up and the user ignored, the third time both stay. |
| FloodLimit.Spends | libathemecore/ptasks.c:880-941 | A user who is not ignored has accepted, over any run, at most what is left of the count, flood_msgs for each punishment to come, and what the rate allows since the last message. |
| FloodLimit.Bounded | libathemecore/ptasks.c:836-950 | Over any stretch of any run, from any state, at most flood_msgs messages are accepted for each punishment to come and once more, plus what the rate allows from the first message of the stretch to the last. |
| FloodLimit.AcceptedBound | libathemecore/ptasks.c:836-950 | So never more than three times flood_msgs, plus what the rate allows. |
| FloodLimit.AllAcceptedExactly | libathemecore/ptasks.c:880-941 | No message of a stretch is refused if and only if at each message the weight since each earlier message of it, and what was left of the count and all that came, are within flood_msgs messages and what the rate allows for the time between. |
| FloodLimit.NewUserAccepted | libathemecore/ptasks.c:836-944 | The same from the first message of a user on. |
| FloodLimit.Unlimited | libathemecore/ptasks.c:863-905 | Without a limit, and for a user with the privilege who is not ignored, every message is accepted. |

## Left out

- Text.WordsOfLine: splits at blanks; a last parameter that starts with a colon, and the limit on the number of parameters, do not occur in the lines printed.
- ModuleRegistry.Registry.Request: a file is published under the name it is asked for, as stated above.
- ModuleRegistry.Registry.Load: does not say how many times failed init code was run, or what its own side effects were.
- DnsUnpack.Skip: bit-string labels are refused.
- DnsUnpack.Unpack: bit-string labels are refused.
- DnsPack.CheckLegal: bit-string labels are refused.
- DnsNames.Pton: stated for the 255-byte buffer its caller gives it, without bit-string labels, and for texts without the NUL that ends a C string.
- ChannelMode.StatusLetter: a user on our own server who is deopped is not opped again, as the reop code changes channels by other means than the line read.
- ChannelMode.Letter: the same, through the status letters.
- ChannelMode.ChannelMode: the same, and not the recheck of mode locks behind the loop.
- The code in `channel_mode` behind its letter loop that rechecks mode locks, `check_modes`, `channel_modes` as text, and `clear_simple_modes`.
- The timer of the stacker and `modestack_forget_channel` and `modestack_finalize_channel`: they flush or drop a batch and add no new steps.
- Source names as long as their buffer, and numbers too long for `atoi`.
- Flag words are sets of bit numbers rather than 32-bit words; no arithmetic is done on them.
- DNS bit-string labels and the reply parser `proc_answer`; the names in a reply are covered by the decoder.
- Hooks, notices and logging in account deletion, and everything `myuser_delete` removes besides channel access; reference counts of dynamic entities.
- `flags_to_bitmask`, the printing of flags and `allow_flags`.
- Hooks that load modules of other kinds, module directories, and deinit code.
- The buffers of byte chunks are fixed-length sequences of bytes that are updated as wholes, not heap arrays; sharing of buffers is not modelled.
- Changing the send limit while bytes are queued, and DCC handlers.
- What the resolver's callbacks do in turn, the choice of name server, and questions other than the id, the name check and the outcome of decoding.
- `match_cidr`, which adds a split at `@` and a call of `match` to `match_ips`.
- IpMatch.MatchIps: gives no answer for a negative length between two addresses, where the code compares bytes that are not part of them.
- The 64 steps of the MD5 block function, and lengths near the limit of `int`.
- base64 decoding without a target, which only counts.
- Services ignore in the flood limiter, and counters near the limit of their type.
