# Verified models of the MIDI code

This project models, in Dafny, how the repository reads, edits, splits, writes and
distributes Standard MIDI Files, and proves properties of that model. Its theme is the
agreement of three descriptions of the same music: delta times, absolute times and bytes.

| files | what they model |
|---|---|
| `Bytes`, `Chunks`, `Vlq` | big-endian numbers, chunks, variable-length quantities and the two writers that pack them into a machine word |
| `Playback`, `Tracks` | the playback order of a song, and what adding and removing an event does to it |
| `TempoMap`, `TempoBuild`, `TempoSettings`, `TempoMeaning` | the piecewise-linear clock, its construction in one pass, what the finished map says, without building it, and what the bytes of tempo events mean in seconds |
| `Incremental`, `Removal`, `Edits` | its incremental upkeep compared with a rebuild, for single edits and over whole histories of a song |
| `SmfTrack`, `Smf` | libsmf's tracks and songs as objects updated in place: editing, cursors, playback, seeking, tempo map |
| `SmfFormat`, `SmfSave`, `SmfLoad`, `SmfCheck` | libsmf's printer and parser, as values and as methods over a song, and the check at the end of `smf_save` |
| `RunningStatus` | events without a status byte of their own, as libsmf's parser reads them |
| `MidiStream`, `MidiWriter`, `MidiReader` | the server's own codec, as values and as stateful writer and reader |
| `ContinuedSysex` | system exclusives in pieces, as the server's reader puts them together |
| `SmallFile` | one small file, byte by byte, through both writers and both readers |
| `Dealing`, `ServerTracks` | the server's linked tracks and their distribution among computers |
| `ServerPiece` | a track on its way through the server: what the callbacks store, what is written of it, and what is lost |
| `StartProtocol` | the synchronised start as a state machine over any number of clients |
| `Transfer` | the byte stream to a client and the client's command loop |
| `TempoHistory` | the reference player's tempo history and the real time it counts with it |

The value modules hold the specifications and the lemmas about them. The class modules
follow the source's loops and assignments, and every method states its new state as a
function of the old one. Ghost fields (`contents`, `view`, `lists`, `pool`, `cursors`,
`parts`) carry the abstract values.

Conventions. C `double` is `real`, so rounding is not modelled. A failed assertion is an
outcome of its own (`Abort`, `Aborts`), apart from an error return. File contents are byte
sequences; the loader's memory behind the end of a file is an arbitrary function, so reads
past the end give arbitrary bytes. glib's pointer-array sort is any sorted permutation,
shown to be unique for the keys that occur. In `lookfor = Mf_toberead - readvarinum()`
(server/midifile.c:278) the call changes the variable it is subtracted from, and C leaves open
which of the two is evaluated first; `MidiStream.Mode.loadFirst` says which, and the results about
reading hold for either order, but for `ContinuedSysex`. Loaded first, the message is cut short by the bytes of its length,
and a 0xF7 event survives only if it is empty (`MidiStream.EventReadIff`, `MidiStream.LoadFirstExample`).

Where the code does not do what its documentation or its purpose says, the model follows the code:

- `smf_set_ppqn` is documented to change the times of all events in seconds
  (exp/libsmf-1.3/src/smf.c:666-681); the code changes only the number. Map and times are
  still those of a rebuild exactly when the number is the old one or every event is at pulse 0
  (`SmfSong.Smf.SetPpqn`, `SmfSong.Smf.SetPpqnExample`).
- The tempo map after removals is documented as a known problem with two tempo events at
  one pulse (exp/libsmf-1.3/TODO:9-11). The exact condition, `Removal.RemoveInSyncIff`,
  shows that pulse 0 fails as well.
- The loader promises to skip what it cannot read and to truncate damaged tracks
  (exp/libsmf-1.3/src/smf_load.c:776,880), but some files make it fail an assertion. They are
  exactly those where a track it reaches has no data, or in some track, before an End Of Track
  or damage, an event is missing altogether, is an escape, or has no status byte behind a system
  exclusive; or where a chunk length has made the file offset negative
  (`SmfFormat.LoadAbortsIff`, `SmfFormat.UnendedExample`, `SmfFormat.DataBehindSysexExample`).
- `smf_seek_to_seconds` is documented to make the first event from the given time on the
  next one (exp/libsmf-1.3/src/smf.c:961-965); when the time is that of the last seek it
  does nothing. After a seek to an event that is right exactly when no event played before
  it is at its pulse (`SmfSong.Smf.StandsAtIff`, `SmfSong.Smf.SeekExample`).
- The splitter's comment promises a track to every computer; for format 2 its index is one
  too high (server/midi_splitter.c:71) and leaves the array exactly when there are at least as
  many computers as tracks (`Dealing.FormatTwoRunsOverIff`).
- Events are documented to carry the number of their track (exp/libsmf-1.3/src/smf.h:318-319),
  but those of a track taken out of a song and added again keep the old one; the song is in
  order exactly when the track has no events or its new number is the old one
  (`SmfSong.Smf.AddTrack`, `SmfSong.Smf.AddTrackExample`).
- Taking a track out of a song leaves the tempo map as it was. It is still that of a rebuild
  exactly when what is left changes tempo and signature at the same pulses and to the same
  effect (`SmfSong.Smf.RemoveTrack`); else a tempo added later can land behind a later entry
  (`Edits.AppendValidIff`, `Edits.TrackGoneExample`).
- The server reads a piece, deals its tracks out and writes them again, but the handlers swap
  the two bytes of a pitch bend (server/midi_reader.c:190-194), store some meta events with a
  length of their own, and keep the status byte of system exclusives, which the writer adds
  again; the first event of a track loses its delta. What comes through unchanged is exactly
  what `ServerPiece.RewrittenIff` says (`ServerPiece.PitchBendExample`).
- `Mf_nomerge` is documented as 1 for system exclusives that are not collapsed
  (server/midifile.c:89-90); the code puts continued ones together exactly when it is set
  (`ContinuedSysex.HeardAsOne`), and else hands on each piece (`MidiStream.TrackReadBack`).
- The server's writer can put the events of a tempo track between header and chunks
  (server/midifile.c:631-635); a file where it has done so cannot be read back
  (`MidiStream.TempoTrackReadBack`).
- The reference player says it revises the real time after each tempo change
  (exp/ref/midifile.c:362-365), but from one track to the next it keeps the tempo it counts
  with. `TempoHistory.StopRightIff` says exactly when a stop adds the right amount,
  `TempoHistory.SecondTrackExample` is one that does not.
- The check at the end of `smf_save` compares times in seconds too; an event added by its time
  in seconds keeps the time it was given, so a song that survives the file can fail the check
  (`SmfCheck.SaveAndCheck`, `SmfCheck.LateExample`).

## Model

| member | source | states |
|---|---|---|
| Vlq.EncodeMeaning | server/midifile.c:881-902 | the encoding of any number is one minimal variable-length quantity (no padding byte, only the last byte without continuation bit) denoting that number |
| Vlq.MinimalIsEncode | server/midifile.c:881-902 | every minimal quantity is the encoding of its value, so encodings and numbers correspond one to one |
| Vlq.EncodeLength | exp/libsmf-1.3/src/smf_save.c:163-190 | an encoding takes at most n bytes exactly when the number fits in 7n bits |
| Vlq.PackGroups | exp/libsmf-1.3/src/smf_save.c:170-175 | the shifting loop leaves in the 64-bit word exactly the first eight bytes of the encoding, first byte lowest |
| Vlq.FormatVlq | exp/libsmf-1.3/src/smf_save.c:163-190 | the emitting loop stops for every 64-bit value and emits the encoding when it fits the word, else its first eight bytes and a zero byte |
| Vlq.WriterCorrectIff | server/midifile.c:881-902 | the packed writers emit the encoding exactly for values below 2^56, and below 2^63 when the low seven bits are zero |
| Vlq.ScanMeaning | server/midifile.c:444-459 | the readers return (v, n) exactly when the first n bytes are a quantity of value v |
| Vlq.ScanEncode | server/midifile.c:444-459 | reading inverts writing and stops right behind the quantity, whatever follows |
| Vlq.ExtractVlq | exp/libsmf-1.3/src/smf_load.c:214-245 | value and length of a quantity of at most four bytes, the too-long error beyond, the end-of-buffer error when no byte ends it |
| Vlq.ExtractEncode | exp/libsmf-1.3/src/smf_load.c:214-245 | `extract_vlq` recovers an encoding exactly for values below 2^28 and reports too long for all others |
| Playback.OrderExists | exp/libsmf-1.3/src/smf.c:807-829 | from any cursor position a playback order of the remaining events exists: each once, times nondecreasing, ties by track, order within a track kept |
| Playback.OrderedUnique | exp/libsmf-1.3/src/smf.c:807-829 | two such orders of the same events are equal |
| Playback.OrderUnfold | exp/libsmf-1.3/src/smf.c:835-855 | the order starts with the event of the track the search picks and goes on with the order from the advanced cursor |
| Playback.PlayOrderIsStableSort | exp/libsmf-1.3/src/smf.c:899-927 | from rewound cursors the playback order is the stable sort by time of the concatenation of all tracks |
| Tracks.SlotSplits | exp/libsmf-1.3/src/smf.c:460-504 | a middle insertion lands before every event of equal time, an append behind them; everything before the slot is not later, everything from it on not earlier |
| Tracks.AddValid | exp/libsmf-1.3/src/smf.c:441-504 | adding keeps times nondecreasing and non-negative |
| Tracks.RemoveValid | exp/libsmf-1.3/src/smf.c:581-610 | removing keeps times nondecreasing |
| Tracks.RemoveUndoesAdd | exp/libsmf-1.3/src/smf.c:415-431 | removing an event just added gives back the track without the displaced End Of Track; nothing was displaced exactly when no End Of Track was last at or before the new time |
| Tracks.AddKeepsEotLast | exp/libsmf-1.3/src/smf.c:415-504 | adding keeps "End Of Track only last" in all cases but one: a further End Of Track added strictly before the last event |
| Tracks.MergeInsert | exp/libsmf-1.3/src/smf.c:807-855 | one event put into one track goes into exactly one place of the playback order of the whole song and moves nothing else; its place among equal times is by track |
| Tracks.MergedSorted | exp/libsmf-1.3/src/smf.c:835-855 | the playback order of a song is nondecreasing in time |
| TempoMap.Continuous | exp/libsmf-1.3/src/smf_tempo.c:196-210 | at a tempo change the clock of the old tempo and that of the new one agree |
| TempoMap.SecondsIsIntegral | exp/libsmf-1.3/src/smf_tempo.c:196-210 | the time of a pulse is the sum, over all pulses before it, of the tempo in force there divided by ppqn times 10^6 |
| TempoMap.StrictlyIncreasing | exp/libsmf-1.3/src/smf_tempo.c:196-210 | later pulses have later times |
| TempoMap.MoreIsEarlier | exp/libsmf-1.3/src/smf_tempo.c:196-210 | read with more pulses to the quarter note, the same map gives every pulse but 0 an earlier time |
| TempoMap.PulsesBracket | exp/libsmf-1.3/src/smf_tempo.c:212-226 | for a time s >= 0 the computed pulse p satisfies sec(p) <= s < sec(p + 1) |
| TempoMap.PulsesInvertsSeconds | exp/libsmf-1.3/src/smf_tempo.c:212-226 | pulses to seconds to pulses is the identity |
| TempoBuild.BuildReached | exp/libsmf-1.3/src/smf_tempo.c:234-254 | one pass over events in time order leaves a valid map: starting at pulse 0, strictly increasing, each entry at the time the one before gives it, all tempi positive |
| TempoBuild.StepKeepsSeconds | exp/libsmf-1.3/src/smf_tempo.c:270-292 | an entry made at pulse p changes no answer up to and including p |
| TempoBuild.ChangeAtStart | exp/libsmf-1.3/src/smf_tempo.c:81-84 | a change at pulse 0 starts an entry at 0 seconds, even where the last entry is a later one |
| TempoBuild.PrefixSeconds | exp/libsmf-1.3/src/smf_tempo.c:242-251 | the answer read off the map in the middle of the pass is the answer of the final map |
| TempoBuild.RebuildSeconds | exp/libsmf-1.3/src/smf_tempo.c:234-254 | the time an event gets in the pass is the sum of tempi in force on the final map |
| TempoBuild.ShortcutIff | exp/libsmf-1.3/src/smf_tempo.c:124-163 | playing an event before others of its pulse or after them gives the same map exactly when no later one of its kind overrules it with another value |
| TempoSettings.InForceSettings | exp/libsmf-1.3/src/smf_tempo.c:234-254 | the rebuilt map against the events themselves: the entry in force at a pulse holds the last tempo and the last signature played at or before it, or the defaults |
| TempoSettings.BuildDescribes | exp/libsmf-1.3/src/smf_tempo.c:234-254 | the rebuilt map has an entry at pulse 0 and at exactly the pulses where an event changes something |
| TempoSettings.SameMapIff | exp/libsmf-1.3/src/smf_tempo.c:234-254 | two lists of events give the same map exactly when they change something at the same pulses and agree on tempo and signature at every pulse |
| TempoMeaning.TempoRead | exp/libsmf-1.3/src/smf_tempo.c:135-143 | the three bytes of a tempo event, the most significant first, are read as the number of microseconds they write; zero is ignored |
| TempoMeaning.SignatureRead | exp/libsmf-1.3/src/smf_tempo.c:146-160 | a signature event sets numerator, two to the power of its second byte as the denominator, clocks and notes, each from its own byte |
| TempoMeaning.KindRead | exp/libsmf-1.3/src/smf.c:631-642 | the events for which the map is kept up are exactly the tempi and signatures, and a message that is neither, or a truncated signature, changes nothing |
| TempoMeaning.ReadExamples | exp/libsmf-1.3/src/smf_tempo.c:135-160 | `FF 51 03 07 A1 20` is 500000 microseconds, `FF 58 04 06 03 24 08` is 6/8 |
| TempoMeaning.TempoLasts | exp/libsmf-1.3/src/smf_tempo.c:234-254 | in the rebuilt map of any song, k pulses take k / ppqn times the microseconds of the last tempo event before them, as written in its bytes, or 500000 before the first one |
| TempoMeaning.SignatureSet | exp/libsmf-1.3/src/smf_tempo.c:234-254 | the signature set at a pulse is that of the bytes of the last signature event up to then, or 4/4 |
| TempoMeaning.OneTempo | exp/libsmf-1.3/src/smf_tempo.c:234-254 | the rebuilt map of a single tempo event of q at pulse 0 is one entry of q, and a quarter note lasts q microseconds |
| TempoMeaning.NoTempo | exp/libsmf-1.3/src/smf_tempo.c:63-83 | without a tempo event a quarter note lasts half a second |
| Incremental.ShortcutInSyncIff | exp/libsmf-1.3/src/smf.c:506-511 | the shortcut at the end of the song agrees with a rebuild exactly when the event changes nothing, or the last event of its kind a rebuild plays after it says the same, or there is none |
| Incremental.AddInSync | exp/libsmf-1.3/src/smf.c:506-511 | one add keeps the map equal to a rebuild when no later track has an event of its kind at its pulse |
| Incremental.AddInSyncIff | exp/libsmf-1.3/src/smf.c:441-512 | one add keeps the map equal to a rebuild exactly when nothing a rebuild plays after the new event overrules it |
| Incremental.RunInSyncIff | exp/libsmf-1.3/src/smf.c:441-512 | over any sequence of adds the map is always that of a rebuild exactly when no event is ever overruled |
| Incremental.AddKeepsSeconds | exp/libsmf-1.3/src/smf.c:506-511 | such an add leaves the clock alone at every pulse that is not recomputed |
| Incremental.RunInSync | exp/libsmf-1.3/src/smf.c:441-512 | after every add of any sequence of adds without such rivals the map is that of a rebuild from scratch |
| Incremental.AddReached | exp/libsmf-1.3/src/smf.c:506-511 | rivals or not, every add leaves a valid map that stops within the song |
| Removal.RemoveInSyncIff | exp/libsmf-1.3/src/smf.c:581-625 | after a removal the map is that of a rebuild exactly when the event was no tempo or signature, or not at the end of the song, or alone at its pulse and that pulse is not 0 |
| Removal.RemovalKeepsSeconds | exp/libsmf-1.3/src/smf.c:612-625 | where the map stays that of a rebuild, the removal also leaves the clock alone at every pulse that is not recomputed |
| Removal.RemovalExample | exp/libsmf-1.3/src/smf_tempo.c:172-194 | a concrete song: removing its only tempo change at pulse 0 loses the initial tempo |
| Removal.RivalExample | exp/libsmf-1.3/src/smf.c:506-511 | concrete events: a tempo added on the first track while the second has one at the same pulse leaves a map a rebuild contradicts |
| Edits.HistoryOrderly | exp/libsmf-1.3/src/smf.c:441-625 | over any history of adds and removals from an orderly song, the map of every song on the way is empty, or chained, with every later entry backed by an event of the song, and stops within it |
| Edits.RemoveOrderly | exp/libsmf-1.3/src/smf.c:581-625 | in sync with a rebuild or not, a removal leaves such a map, or none |
| Edits.AppendValidIff | exp/libsmf-1.3/src/smf.c:506-511 | a change appended at the end of the song leaves the map in order exactly when no entry is later than it |
| Edits.NeutralTrack | exp/libsmf-1.3/src/smf.c:178-208 | a track that changes neither tempo nor signature leaves no trace in what a rebuild gives |
| Edits.TrackGoneIff | exp/libsmf-1.3/src/smf.c:178-208 | when a track is taken out, the map left as it was is that of a rebuild exactly when the remaining events change something at the same pulses and to the same effect |
| Edits.TrackGoneExample | exp/libsmf-1.3/src/smf.c:178-208 | a concrete song: with the track of a later tempo gone, the map goes on past the song, and the next tempo lands out of order |
| SmfTracks.PtrArraySort | exp/libsmf-1.3/src/smf.c:381-409 | a sorted permutation under the comparison by time, then number |
| SmfTracks.SortUnique | exp/libsmf-1.3/src/smf.c:381-409 | when all keys differ every sorted permutation is the same, whatever the sorting algorithm |
| SmfTracks.PtrArrayRemove | exp/libsmf-1.3/src/smf.c:603-604 | exactly the first occurrence goes, the others keep their order |
| SmfTracks.SmfTrack.ContentsValid | exp/libsmf-1.3/src/smf.c:441-504 | in a track that satisfies its invariant, times are nondecreasing, number is position and delta is time minus previous time |
| SmfTracks.SmfTrack.Add | exp/libsmf-1.3/src/smf.c:441-504 | the event is in its slot, all others in their order, numbers and deltas right again, the first cursor set |
| SmfTracks.SmfTrack.Remove | exp/libsmf-1.3/src/smf.c:581-610 | the event is gone from its numbered place, all others in their order, numbers and deltas right again, the delta passed on to the next event |
| SmfTracks.SmfTrack.Renumber | exp/libsmf-1.3/src/smf.c:474-490 | all events numbered by place, the unknown delta of the new one computed, no other delta touched |
| SmfTracks.SmfTrack.PassDelta | exp/libsmf-1.3/src/smf.c:591-596 | the deltas of the events without the one to go are right after the hand-over |
| SmfTracks.SmfTrack.RenumberFrom | exp/libsmf-1.3/src/smf.c:606-610 | renumbering from the gap on restores all numbers |
| SmfTracks.SmfTrack.GetNextEvent | exp/libsmf-1.3/src/smf.c:692-719 | the event under the cursor, the cursor one further and knowing the time of what follows; null at the end |
| SmfTracks.SmfTrack.SetNumber | exp/libsmf-1.3/src/smf.c:192-204 | the track and all its events carry the new number |
| SmfSong.Smf.Rewind | exp/libsmf-1.3/src/smf.c:899-927 | all cursors at the start; what remains is the whole playback order |
| SmfSong.Smf.FindTrackWithNextEvent | exp/libsmf-1.3/src/smf.c:807-829 | the first track among those with the earliest next event, null exactly when all are played |
| SmfSong.Smf.GetNextEvent | exp/libsmf-1.3/src/smf.c:835-855 | the first remaining event is returned and exactly it is consumed; null exactly when nothing remains; the seek position is forgotten |
| SmfSong.Smf.PeekNextEvent | exp/libsmf-1.3/src/smf.c:874-892 | the first remaining event, nothing consumed |
| SmfSong.Smf.PlayAll | exp/libsmf-1.3/src/smf.c:835-855 | playing until null after a rewind ends, and yields the stable sort by time of the concatenation of all tracks |
| SmfSong.Smf.SeekToPulses | exp/libsmf-1.3/src/smf.c:1009-1038 | 0 exactly when some event is at or after the target; what remains is the playback order from the first such event on |
| SmfSong.Smf.SeekToSeconds | exp/libsmf-1.3/src/smf.c:966-1002 | the same by times in seconds; when the target is the position of the last seek neither cursors nor times of any track change, so what is next is right exactly if it was |
| SmfSong.Smf.SeekToEvent | exp/libsmf-1.3/src/smf.c:934-959 | ends for every event of the song, with that event next and the playback order from it on remaining |
| SmfSong.Smf.StandsAtIff | exp/libsmf-1.3/src/smf.c:934-1002 | with an event next, the song stands where a seek to its time should leave it exactly when no event played before it is as late; where times are those of a rebuild, exactly when none before it is at its pulse |
| SmfSong.Smf.SeekToEventThenSeconds | exp/libsmf-1.3/src/smf.c:934-1002 | the two calls one after the other: the target is next and playable, and the first event from that time on is next exactly when no event before the target is at its pulse |
| SmfSong.Smf.SeekExample | exp/libsmf-1.3/src/smf.c:966-978 | two tracks with an event at pulse 0 each: with the second one next, the song does not stand where a seek to its time should leave it |
| SmfSong.Smf.GetLengthPulses | exp/libsmf-1.3/src/smf.c:1044-1065 | the largest time of a last event, 0 for an empty song |
| SmfSong.Smf.GetTempoByPulses | exp/libsmf-1.3/src/smf_tempo.c:270-292 | the last entry strictly before the pulse, the first entry for pulse 0 |
| SmfSong.Smf.SecondsFromPulses | exp/libsmf-1.3/src/smf_tempo.c:196-210 | the clock of the map, whose properties are stated for it above |
| SmfSong.Smf.PulsesFromSeconds | exp/libsmf-1.3/src/smf_tempo.c:212-226 | the pulse the time falls in, as characterised by the bracket above where the map is valid, on any map the library can hold |
| SmfSong.Smf.StartTempo | exp/libsmf-1.3/src/smf_tempo.c:49-92 | reuse the last entry at the same pulse, else a new one timed by the old ones; the first of all has the default tempo |
| SmfSong.Smf.MaybeAddToTempoMap | exp/libsmf-1.3/src/smf_tempo.c:124-163 | the map after one event, from an empty map too; zero tempi and short signatures are ignored |
| SmfSong.Smf.CreateTempoMapAndComputeSeconds | exp/libsmf-1.3/src/smf_tempo.c:234-254 | the map is that of one pass over the playback order and every event carries the time this map gives it |
| SmfSong.Smf.RemoveLastTempoWithPulses | exp/libsmf-1.3/src/smf_tempo.c:172-194 | the last entry goes exactly when it is at that pulse |
| SmfSong.Smf.RemoveEvent | exp/libsmf-1.3/src/smf.c:581-625 | the event leaves its track, which is put right; times in seconds are recomputed or untouched; map and event times in seconds stay those of a rebuild exactly under the condition of `RemoveInSyncIff`; an orderly map stays orderly or becomes empty |
| SmfSong.Smf.RemoveEotIfBeforePulses | exp/libsmf-1.3/src/smf.c:415-431 | a last End Of Track not later than the pulse is removed, nothing else changes |
| SmfSong.Smf.AddEvent | exp/libsmf-1.3/src/smf.c:441-512 | tracks, map and event lists after an add with the displaced End Of Track, for every event and time, also on the empty map a removal can leave, where only the tempo event that fails the assertion in `seconds_from_pulses` is excluded |
| SmfSong.Smf.ListUndo | exp/libsmf-1.3/src/smf.c:581-610 | taking out an event just added gives the events of the track back in order, when no End Of Track was displaced |
| SmfSong.Smf.AddEventPulses | exp/libsmf-1.3/src/smf_tempo.c:419-429 | the add, and: if map and all event times were those of a rebuild, they still are exactly when nothing a rebuild plays later overrules the event, so always when it has no rival |
| SmfSong.Smf.AddEventDeltaPulses | exp/libsmf-1.3/src/smf_tempo.c:403-411 | the same at the given distance from the last event, with the same exact condition; the event gets the time in seconds the old map gives its pulse, all others keep theirs, unless there is a rebuild |
| SmfSong.Smf.AddEventSeconds | exp/libsmf-1.3/src/smf_tempo.c:437-447 | the event goes to the pulse the conversion gives, on a valid map the one its time falls in, and keeps the given time in seconds, all others keep theirs, unless there is a rebuild; map and event times, if those of a rebuild, still are exactly when nothing overrules the event and the given time is that of the pulse or there is a rebuild |
| SmfSong.Smf.AddEotDeltaPulses | exp/libsmf-1.3/src/smf.c:524-535 | an End Of Track at the given distance, always successful, map and event times kept |
| SmfSong.Smf.AddEotPulses | exp/libsmf-1.3/src/smf.c:538-555 | refused with -2 exactly when a later event exists; otherwise the End Of Track stays only last |
| SmfSong.Smf.SetPpqn | exp/libsmf-1.3/src/smf.c:666-681 | only the number changes; map and event times, if those of a rebuild, still are exactly when the number is the old one or every event is at pulse 0 |
| SmfSong.Smf.SetPpqnExample | exp/libsmf-1.3/src/smf.c:666-681 | a concrete song: an event at pulse 1 timed with one pulse to the quarter note is off the clock with two |
| SmfSong.Smf.AddTrack | exp/libsmf-1.3/src/smf.c:156-172 | the track becomes the last, the format 1 when there are several; the song is in order afterwards exactly when the track has no events or they already carry its number; map and event times are kept by an empty track |
| SmfSong.Smf.AddTrackExample | exp/libsmf-1.3/src/smf.c:156-172 | the first track of another song, with an event, added as the second: the song is not in order |
| SmfSong.Smf.RemoveTrack | exp/libsmf-1.3/src/smf.c:178-208 | the track is detached with its events, which keep their number; those behind it move up with their events; map and event times stay those of a rebuild exactly when what is left changes tempo and signature alike, so always when the track changes neither |
| SmfSong.Smf.constructor | exp/libsmf-1.3/src/smf.c:55-82 | an empty song whose map is the initial tempo, in agreement with a rebuild |
| SmfFormat.MessageRoundTripIff | exp/libsmf-1.3/src/smf_load.c:481-534 | a valid message comes back from its bytes exactly when it is a channel message, a meta event or a system exclusive shorter than 2^28 |
| SmfFormat.GoodLengths | exp/libsmf-1.3/src/smf_load.c:315-388 | the valid messages in numbers: three bytes or two for a channel message, one to three for a system message, and a meta event as long as its third byte says |
| RunningStatus.StatusInForce | exp/libsmf-1.3/src/smf_load.c:489-533 | an event that begins with a data byte is read exactly as if the status byte in force stood before it, one byte less being used |
| RunningStatus.StatusRestored | exp/libsmf-1.3/src/smf_load.c:542-589 | for any track data: writing the omitted status byte before the data bytes changes nothing that is loaded |
| RunningStatus.TerseRoundTripIff | exp/libsmf-1.3/src/smf_load.c:766-798 | whichever repeated status bytes a writer leaves out, the loader makes of the track what it makes of all of them: the same track, exactly when the track is restorable |
| RunningStatus.RunningExample | exp/libsmf-1.3/src/smf_load.c:489-533 | `00 90 3C 40 60 3C 00 00 FF 2F 00` is two note events, at 0 and 96, and the End Of Track at 96 |
| SmfFormat.EscapedAborts | exp/libsmf-1.3/src/smf_load.c:281-308 | every other system common or real-time message is written escaped, and reading it back fails an assertion |
| SmfFormat.SysexReadIff | exp/libsmf-1.3/src/smf_load.c:391-427 | a system exclusive is read, with all its data, exactly when its length fits four bytes, something follows it, and three bytes at least follow its status byte |
| SmfFormat.TrackRoundTripIff | exp/libsmf-1.3/src/smf_load.c:766-798 | a track comes back from its bytes exactly when deltas fit 28 bits, messages survive and an End Of Track is there exactly at the end |
| SmfFormat.ParseEvents | exp/libsmf-1.3/src/smf_load.c:766-798 | reading a track never ends in an error return: it yields a track or fails an assertion |
| SmfFormat.DamageEnds | exp/libsmf-1.3/src/smf_load.c:776-798 | at an event that cannot be read, the track ends with `FF 2F 00` at the time of the last event; what was read before stays |
| SmfFormat.EventAbortsIff | exp/libsmf-1.3/src/smf_load.c:542-589 | reading an event fails an assertion exactly when nothing is left, or behind the delta comes an escape, or a data byte under the status of a system exclusive or an escape |
| SmfFormat.TrackAbortsIff | exp/libsmf-1.3/src/smf_load.c:766-798 | reading a track fails an assertion exactly when some number of accepted events, none an End Of Track, leads to such an event |
| SmfFormat.LoadAbortsIff | exp/libsmf-1.3/src/smf_load.c:859-903 | for any file: an error is reported exactly when the header is refused; an assertion fails exactly when the header is accepted and one of the chunks announced stumbles; every other file loads |
| SmfFormat.UnendedExample | exp/libsmf-1.3/src/smf_load.c:558-559 | a track of one complete note without End Of Track fails an assertion |
| SmfFormat.DataBehindSysexExample | exp/libsmf-1.3/src/smf_load.c:388-397 | so does an event without status byte behind a system exclusive |
| SmfFormat.ParseEvent | exp/libsmf-1.3/src/smf_load.c:542-589 | an accepted event is valid, and at least one byte and at most the buffer is used |
| SmfFormat.HeaderRead | exp/libsmf-1.3/src/smf_load.c:155-206 | the header fields come back to 16 bits; format 2, no tracks, a zero or negative division are rejected |
| SmfFormat.HeaderAcceptedIff | exp/libsmf-1.3/src/smf_load.c:155-206 | byte by byte, the files whose header is accepted, and the format, number of tracks and ppqn read from it |
| SmfFormat.NextChunkIff | exp/libsmf-1.3/src/smf_load.c:55-91 | a chunk is found exactly where four letters, a length and at least one byte more are left; its length is the next four bytes, the most significant first, and the loader goes on behind it or at the end of the file |
| Chunks.Int32Means | exp/libsmf-1.3/src/smf_load.c:82-88 | file offsets are counted in 32 bits with sign: the number in that range that differs by a multiple of 2^32 |
| SmfFormat.LoadKeeps | exp/libsmf-1.3/src/smf_load.c:873-889 | tracks once loaded stay and no more than announced are loaded |
| SmfFormat.SaveLoadIff | exp/libsmf-1.3/src/smf_load.c:859-903 | loading a saved song gives it back, whatever lies behind the file in memory, exactly when the format is not 2, there are fewer than 2^16 tracks, ppqn is below 2^15 and every track survives |
| SmallFile.SmfFile | exp/libsmf-1.3/src/smf_save.c:605-659 | the bytes of a file with a tempo, one note of a quarter and the end of the track; loading them gives the song back |
| SmallFile.ServerFile | server/midifile.c:104-304 | the server's writer gives the same bytes for the same events, and its callbacks hear exactly those events at their times |
| SmfSave.CheckSongIff | exp/libsmf-1.3/src/smf_save.c:491-553 | the checks pass exactly for formats 0 to 2, one track or more (one only for format 0), positive ppqn, valid messages and at most one End Of Track a track; what is left can then be written |
| SmfSave.HeaderErrors | exp/libsmf-1.3/src/smf_save.c:497-515 | the errors -1 to -4, each exactly where its field is the first that is wrong |
| SmfSave.FirstFault | exp/libsmf-1.3/src/smf_save.c:517-541 | else the error is that of the first event at fault: -5 for an invalid message, -6 for a second End Of Track, and the failing assertion for an empty or escaped one |
| SmfSave.Validate | exp/libsmf-1.3/src/smf_save.c:491-553 | the verdict with its error code, and the song with an End Of Track added to each track checked so far that lacked one, timed by the map, or the failing assertion if there is no map; all other events keep their times |
| SmfSave.TrackAppend | exp/libsmf-1.3/src/smf_save.c:147-161 | the bytes go to the end of the file buffer; the first ones fix where the track starts |
| SmfSave.WriteEventContents | exp/libsmf-1.3/src/smf_save.c:255-317 | system exclusives with their length, other system messages escaped with theirs, all others as they are |
| SmfSave.WriteMtrkLength | exp/libsmf-1.3/src/smf_save.c:354-366 | the patched header makes a chunk whose length field is that of its body, nothing else changes |
| SmfSave.WriteTrack | exp/libsmf-1.3/src/smf_save.c:371-392 | one chunk with the bytes of all events of the track, in order |
| SmfSave.Save | exp/libsmf-1.3/src/smf_save.c:619-659 | what would be written is the file of the completed song; nothing is written when the checks fail or an assertion does; events keep their times |
| SmfLoad.AdvanceChunk | exp/libsmf-1.3/src/smf_load.c:55-91 | the chunk at the offset or the error, and the offset behind it, cut off at the end of the file |
| SmfLoad.ParseMthdChunk | exp/libsmf-1.3/src/smf_load.c:155-206 | format, ppqn and number of tracks, or the error, as the specification of the header says |
| SmfLoad.ParseNextEvent | exp/libsmf-1.3/src/smf_load.c:542-589 | the next event attached at its delta behind the last, or the error with the song untouched |
| SmfLoad.ParseMtrkChunk | exp/libsmf-1.3/src/smf_load.c:766-798 | the track becomes the parsed one; on an unreadable event it is cut off with an End Of Track |
| SmfLoad.LoadFromMemory | exp/libsmf-1.3/src/smf_load.c:859-903 | a new song equal to the parsed one, with all its structure in order and map and event times those of a rebuild, or the error |
| SmfLoad.LoadSong | exp/libsmf-1.3/src/smf_load.c:911-932 | the same song with the same times, ready to be played from the start |
| SmfCheck.IdenticalTrack | exp/libsmf-1.3/src/smf_save.c:557-579 | the comparison accepts exactly tracks with the same times and messages and, within a hundredth of a second, the same times in seconds |
| SmfCheck.SameClocksIff | exp/libsmf-1.3/src/smf_save.c:557-598 | against the loaded song, whose times are those of a rebuild, the comparison of seconds asks whether every event is within a hundredth of a second of the time a rebuild gives its pulse |
| SmfCheck.LateExample | exp/libsmf-1.3/src/smf_save.c:557-566 | a concrete song that survives the file but has an event 0.4 seconds late, as adding it by its time in seconds can leave it |
| SmfCheck.SaveAndCheck | exp/libsmf-1.3/src/smf_save.c:598-659 | for any song, whatever has become of its map: the check after saving succeeds exactly when the completed song is one that survives and every event is on time; a song whose map and times are those of a rebuild always is on time |
| MidiStream.VarRoundTripIff | server/midifile.c:444-459 | the reader gets the number back exactly for those the packed word holds: below 2^56, or below 2^63 with the low seven bits zero |
| MidiStream.EventRead | server/midifile.c:202-300 | one written event read back, for either order of evaluation: the same event at its time, exactly its bytes consumed, and the reader's status again the writer's |
| MidiStream.EventReadIff | server/midifile.c:202-300 | an event comes back exactly when its delta fits the packed word, a channel event without status byte starts with a data byte below 128, a system exclusive ends in 0xF7 when `Mf_nomerge` is set, and a 0xF7 event is empty when the budget is loaded first |
| MidiStream.BadByte | server/midifile.c:202-300 | no event starts with a data byte without a channel status in force, with a system status other than 0xF0 and 0xF7, or, while a system exclusive is incomplete, with anything but 0xF7: there the reader gives up |
| MidiStream.ChannelSizes | server/midifile.c:171-185 | the channel messages both sides agree on: one data byte for a program change and a channel pressure, two for all others |
| MidiStream.LoadFirstExample | server/midifile.c:276-297 | a 0xF7 event with one data byte, the budget loaded first: an empty message is heard and the byte is left over |
| ContinuedSysex.HeardAsOne | server/midifile.c:258-298 | with `Mf_nomerge` set and lengths read before the budget is loaded, a system exclusive written in any number of pieces is heard as one message, all pieces in order behind one status byte, at the time of the last |
| MidiStream.TrackReadBack | server/midifile.c:171-304 | a written track of readable events read back, for either order of evaluation: all events at their absolute times, the byte budget exactly used up |
| MidiStream.FileReadBack | server/midifile.c:104-168 | a written file of such tracks read back: the header, then exactly the tracks written, each with all its events |
| MidiStream.HeaderSkips | server/midifile.c:115-168 | a header chunk of any length: three numbers of 16 bits are read and what is left of the chunk is skipped |
| MidiStream.EndsInIdentifier | server/midifile.c:120-137 | a file that ends within a chunk identifier ends there without an error; one that has another byte there makes the reader give up |
| MidiStream.TempoTrackReadBack | server/midifile.c:631-635 | with the tempo track callback of format 1, the file is read back exactly when the callback wrote no event; otherwise the reader gives up behind the header |
| MidiWriter.Writer.WriteVarLen | server/midifile.c:881-902 | the emitted bytes appended and counted |
| MidiWriter.Writer.WriteMidiEvent | server/midifile.c:757-792 | the bytes of the event appended and counted; `laststatus` is the status of the event |
| MidiWriter.Writer.WriteMetaEvent | server/midifile.c:809-833 | the same for a meta event |
| MidiWriter.Writer.WriteTrackChunk | server/midifile.c:643-711 | after seeking back and forth the file ends in one chunk whose length field is exactly that of its body |
| MidiWriter.Writer.MfWrite | server/midifile.c:611-640 | a header, for format 1 the events of the optional tempo track callback outside any chunk, and one chunk a track |
| MidiReader.MessageBuffer.Add | server/midifile.c:538-546 | one byte more at the end of the message, growing the buffer when full |
| MidiReader.MessageBuffer.Grow | server/midifile.c:548-573 | a larger buffer with the same contents |
| MidiReader.Reader.ReadVarinum | server/midifile.c:444-459 | the quantity at the front of the input, consumed and taken off the budget |
| MidiReader.Reader.ReadEvent | server/midifile.c:202-300 | one turn of the loop, with all error exits, for either order of evaluation, as the event function says |
| MidiReader.Reader.ReadTrack | server/midifile.c:171-304 | a whole track heard, for either order of evaluation, the budget used up or overdrawn |
| MidiReader.Reader.MfRead | server/midifile.c:104-112 | everything the callbacks hear for any input and either order of evaluation, and the inputs on which the program gives up |
| Dealing.DealtInRange | server/midi_splitter.c:95-100 | the d-th track of a destination exists exactly when d is below its share, so the assertion holds |
| Dealing.DealtBijection | server/midi_splitter.c:95-100 | every part goes to exactly one destination and place |
| Dealing.DealingConserves | server/midi_splitter.c:84-117 | the hands of all destinations together are the parts, none lost and none doubled |
| Dealing.SharesAddUp | server/midi_splitter.c:123-139 | the shares add up to the number of parts and differ by at most one |
| Dealing.PlayersShare | server/midi_splitter.c:43-64 | with at least as many computers as parts, each part is played by the floor or the ceiling of computers per part |
| Dealing.EveryPartPlayed | server/midi_splitter.c:43-64 | every part is played |
| Dealing.FormatTwoRunsOverIff | server/midi_splitter.c:65-74 | for format 2 some index runs past the last track exactly when there are at least as many computers as tracks, where destination i gets the one track i % ntracks + 1 |
| ServerTracks.Mtrack.Append | server/midi.c:130-151 | the event is last, its delta the gap to the one before, the list linked to its end; a first event keeps its delta |
| ServerTracks.Mtrack.Copy | server/midi.c:30-46 | new events with the same times, payloads and deltas |
| ServerTracks.DeltasAddUp | server/midi.c:130-151 | in time order, the deltas from the second event on add up to the time since the first |
| ServerTracks.TrackNumMap | server/midi_splitter.c:123-139 | each entry is the share of its destination |
| ServerTracks.SplitByTracks | server/midi_splitter.c:20-121 | one file a destination: the tempo track and its part or hand, all files, tracks and events new |
| ServerTracks.SplitIsPartition | server/midi_splitter.c:78-118 | among fewer computers than parts, every destination has the tempo track and the rest is a partition of the parts |
| ServerTracks.FormatTwoSplit | server/midi_splitter.c:102-117 | for format 2 among fewer computers than tracks the files together hold all the tracks, each exactly once |
| ServerTracks.EveryPartDealt | server/midi_splitter.c:43-64 | among at least as many computers as parts, every computer gets the tempo track and one part, and every part goes to some computer, to as many as its even share when the parts differ |
| ServerPiece.StoreTrack | server/midi_reader.c:129-352 | the track the callbacks leave: the notes of what was heard, linked, the first with no delta |
| ServerPiece.WriteTrack | server/midi_writer.c:79-109 | the list is written from its first event on, with the bytes of the event codec |
| ServerPiece.WrittenHeard | server/midi_writer.c:79-109 | a stored track in time order, written and read back: its chunk is used up and every event is heard at its distance from the first, behind the first one's delta |
| ServerPiece.OnTimeIff | server/midi.c:130-151 | all events are heard at their own times exactly when the delta of the first is its time; as stored by the reader, when it is at 0 |
| ServerPiece.SurvivesIff | server/midi_reader.c:170-352 | an event read, stored and written again is the same exactly when it is a channel message, but a pitch bend only with two equal bytes, or a meta event, but a tempo only with 3 bytes of data, a signature with 4, an SMPTE offset with 5, a key or sequence number with 2, an end of track with none |
| ServerPiece.MetaKept | server/midi_reader.c:227-352 | a meta event of its standard length (tempo 3, signature 4, SMPTE offset 5, key and sequence number 2, end of track 0, others any) is stored with all its data and written again as it was |
| ServerPiece.TempoKeptExample | server/midi_reader.c:306-309 | the data `07 A1 20` of a tempo event is stored as it is |
| ServerPiece.RewrittenIff | server/midi_reader.c:170-352 | a track read and written again is the same exactly when all its events survive and the first one is at time 0 |
| ServerPiece.PitchBendExample | server/midi_reader.c:190-194 | a pitch bend of two different bytes is written again with the bytes swapped |
| StartProtocol.StepKeeps | server/server_thread.c:58-124 | every step of every thread, client and of main keeps the invariant |
| StartProtocol.RunSafe | server/cmd_handlers.c:128-178 | in every run with any number of clients: no play command before all acknowledgements and main at the barrier, no file opened before all are written, no barrier before it is initialised, no client playing before all have their files, and the id and file on their way to a client are those of its own thread |
| StartProtocol.OneReceiver | server/server_thread.c:58-105 | over a whole run no two clients get one file or one id |
| StartProtocol.NoDeadlock | server/server_thread.c:58-124 | while anybody is not through, somebody can move: no deadlock and no lost wakeup |
| StartProtocol.MeasureFalls | server/server_thread.c:58-124 | every step but a new client or a spurious wakeup lowers a natural measure |
| StartProtocol.EveryStretchEnds | server/cmd_handlers.c:128-178 | undisturbed, every interleaving ends, and only where every client has been told to play |
| Transfer.SendAll | server/server_thread.c:195-221 | however sends fragment, all bytes are sent in order, or the failure is reported with how many were |
| Transfer.RecvAll | client/socket_client.c:102-128 | however receives fragment, the buffer holds exactly the announced bytes and the stream goes on behind them |
| Transfer.SendFile | server/server_thread.c:66-105 | if nothing fails the stream holds command, size and data of the file |
| Transfer.NextEncode | client/client.c:72-131 | a command is recognised as such, whatever follows |
| Transfer.CommandBytes | client_protocol.h:6-16 | the commands byte by byte; numbers follow in four bytes, the most significant first |
| Transfer.InterpretEncode | client/client.c:72-131 | any sequence of commands is carried out as sent, and the next byte read is that of the next command |
| Transfer.PlayAfterFile | client/client.c:102-123 | whatever prefix of a file and a play command has arrived, play comes only after the whole file |
| Transfer.Client.Run | client/client.c:72-131 | the player is told exactly the commands of the stream, and one acknowledgement goes back for each file |
| TempoHistory.History.SetTempo | exp/ref/midifile.c:554-567 | without a tempo callback nothing changes; with one, repeated tempi and earlier times are ignored, others appended, or put over the last entry when the history is full; it stays sorted |
| TempoHistory.History.FindTempo | exp/ref/midifile.c:283-311 | the next change not later than now and its tempo; else now, and the last tempo set neither later than now nor later than where the clock stood |
| TempoHistory.History.Advance | exp/ref/midifile.c:349-413 | the stepping ends, and stops at every tempo change in the interval and at its end, once each and in order, with the tempo of the stop; a settled clock with no two changes at one time ahead adds exactly the sum of the tempi in force and stays settled; with one tempo in force, that is its microseconds to the quarter note for each quarter note of ticks |
| TempoHistory.History.StartTrack | exp/ref/midifile.c:341-345 | every track starts with the tempo last set at time 0, wherever the last one ended, and with a settled clock exactly when that is the tempo it counts with |
| TempoHistory.History.Revise | exp/ref/midifile.c:373-410 | one stop of the real time, in all its cases |
| TempoHistory.StopRightIff | exp/ref/midifile.c:373-410 | whatever the clock counts from, a stop adds the right amount exactly when it counted with the tempo that was in force, or finds another one and starts to count anew here or at the stop before |
| TempoHistory.StopSettled | exp/ref/midifile.c:361-410 | a stop of a settled clock adds the sum of the tempi in force and leaves it settled |
| TempoHistory.TicksLast | exp/ref/midifile.c:1099-1112 | ticks at a tempo of q come to q microseconds for every quarter note of them, in sixteenths of a centisecond |
| TempoHistory.QuarterNote | exp/ref/midifile.c:1099-1112 | a quarter note, as many ticks as the division, comes to q microseconds |
| TempoHistory.Evenly | exp/ref/midifile.c:349-413 | from one time to another without a change between them the true time goes on with the microseconds of the tempo in force |
| TempoHistory.SecondTrackExample | exp/ref/midifile.c:341-410 | the first stop of a second track, counted with a tempo left over from the first: 0.6 seconds for a quarter note of 0.5 |

## Left out

- Incremental.AddInSync: one direction, with a condition on the tracks alone; the exact condition is that of `Incremental.AddInSyncIff`.
- Incremental.RunInSync: the same for whole runs; the exact condition is that of `Incremental.RunInSyncIff`.
- ContinuedSysex.HeardAsOne: for lengths read before the budget is loaded; loaded first, each piece is cut short by the bytes of its length.
- MidiStream.FileReadBack: numbers in the header come back modulo 2^16, as they are written.
- SmfFormat.SaveLoadIff: for files below 2^31 bytes, the range of the loader's length.
- ServerTracks.SplitByTracks: excludes format 2 with as many computers as tracks and format 1 without parts, where the source reads past its array or divides by zero.
- StartProtocol.EveryStretchEnds: one session with one play; new clients and spurious wakeups are allowed in every run but not counted as progress.
- TempoHistory.History.Advance: divisions in SMPTE frames, and the rounding of the real time to `Mf_realtime`.
- MidiReader.Reader.ReadVarinum: numbers are unbounded; beyond 63 bits the C shift is undefined.
- Floating-point rounding, and `int` overflow of times and sizes except where a member states a bound.
- Bytes of a meta event past its end: C reads outside the message, the model reads 0 (`TempoBuild.ByteAt`); the power of two of a time signature is unbounded.
- Cursors after adds and removals: as in the source they are only right again after a rewind.
- `smf_get_length_seconds`, `smf_set_format`, event constructors and text decoding, which read or set one field or look up one table.
- SMPTE division and format 2 in libsmf, which it rejects itself.
- Memory management: allocation failures, frees, buffer sizes (`track_num_map` allocates too few bytes), the shared data pointers of copied events, the copy of a system exclusive that ends at its first zero byte, functions without a return statement, which are taken to return what they build.
- `mf_write_seqnum`, `mf_write_tempo`, and the names and texts the handlers in `server/midi_reader.c` copy out of meta events.
- Announced file sizes of 0 or beyond 2^31 in the transfer, where the result of `recvall` is undefined; short reads of the fixed-size fields.
- Reconnecting, a second play, and failures of files, sockets and threads in the start protocol.
- Sockets, files, audio output, the shell and the duplicate copies of the codec under `exp/`.
