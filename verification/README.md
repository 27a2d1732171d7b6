# Check-in server: verified models of its algorithms

The check-in server stores members' posts, photos and clips, and answers with summaries of them: a
recap of a week or month, trips and gatherings, a list of places, an activity log. This project models
the parts of it that are algorithms rather than plumbing, and proves what they promise.

- **Media sanitizers** (`Mp4Boxes`, `Mp4Outline`, `Mp4Strip`, `Mp4Privacy`, `Mp4Probe`, `Mp4Clip`,
  `GifFormat`, `GifSanitize`). An upload is parsed and its metadata is zeroed in place. The methods work
  on an `array<byte>`; the formats (ISO/IEC 14496-12 section 4.2, GIF89a sections 15 to 27) are given by
  a printer and a reader of trees, and the methods are proved to leave the print of the scrubbed tree.
- **Recaps** (`RecapSelect`, `RecapWall`, `RecapCards`, `RecapAwards`, `Rosters`, `RecapFilter`,
  `RecapView`, `RecapBuild`, `RecapSchedule`, `RecapProtocol`). The choice of posts for the Wall, the
  titles, the roster, the view of a member who blocks others, the weekly windows, and the creation of a
  recap by concurrent transactions.
- **Events and places** (`EventRows`, `EventHome`, `TripRuns`, `EventBuild`, `Events`, `EventFacts`,
  `EventDetect`, `Places`, `PlaceFacts`, `PlaceStats`, `PlaceBuild`). What counts as an event or a place
  is a predicate on the *set* of posts; the loops over maps and slices are proved to compute it, so
  nothing depends on map order or on the order of the input.
- **Gazetteer** (`GazetteerFile`, `Gazetteer`, `GazetteerSearch`). The packer's bytes and the reader's
  binary search, against a linear scan of the place list.
- **Protocols and codecs** (`RateLimit`, `Activity`, `Text`, `OutlineCodec`). The token buckets with
  their eviction, keyset paging, and the varint/delta encoding of map outlines.

`Bytes`, `Sorting`, `Text` and `Wrappers` hold what the others share. `Sorting.SortSlice` promises a
permutation in order and nothing about ties, as `sort.Slice` does; maps are iterated by picking any
element (`Sorting.PickOne`). Strings are sequences of characters standing for bytes, instants are integer
nanoseconds, token counts and coordinates are real numbers.

Two patterns recur. A Go object whose methods change its fields is a class (`RateLimit.RateLimiter`,
`OutlineCodec.Buffer`), and a buffer scrubbed in place is an array. A result that the source promises to
be deterministic is a predicate (`Events.Detection`, `Places.IsPlaceList`, `RecapWall.IsWall`,
`Activity.IsPage`) with two theorems: the method's result satisfies it, and at most one value does.

What a format, a search or a view promises is said once more without the functions that compute it, about
the stored bytes and the answers themselves (`Mp4Privacy`, `Mp4Clip`, `GazetteerSearch`, `RecapView`,
`RecapCards`, `EventFacts`, `PlaceFacts`).

Where the code does not do what its comments say:

- Manual recaps are said to be unique per period and panels, and a request to replace a post that is
  gone to be refused (server/internal/db/recap.go:764-773, server/internal/api/recap.go:309-314). The code
  does not compare the duplicate it finds with the post to be replaced (db/recap.go:798).
  `RecapProtocol.UniqueRunIff` proves when uniqueness holds: if and only if every commit for the key
  replaces all its recaps. `RecapProtocol.GuardedUnique` proves that the missing comparison at the check is
  enough in every interleaving, and `RecapProtocol.GuardExact` that a request let past the check without
  it goes on to leave two. `RecapProtocol.ReplaceRace` is such a run. Scheduled recaps, and manual ones
  that nobody replaces, always pass the comparison: `RecapProtocol.AtMostOneRecap`.
- Eviction of idle buckets (server/internal/api/ratelimit.go:144-153) is invisible only if ten minutes
  refill a bucket: `RateLimit.SweepInvisibleIff`. Every configured limiter qualifies.

`scaleToMs` (server/internal/storage/mp4.go:443-444) is said to keep a long duration in a fine timescale
from overflowing. It does: `Mp4Probe.ScaleToMsExact` proves that every 64-bit duration is exact if and only if
the timescale is at least 1000. Below that, which the comment does not speak of, `Mp4Probe.ScaleToMsLimit`
gives the bound on the whole units.

## Model

| member | source | states |
|---|---|---|
| Mp4Boxes.ParseBoxList | server/internal/storage/mp4.go:292-330 | The walk over the buffer returns exactly the boxes of the grammar `Split` at their offsets, with 32-bit, 64-bit and to-the-end sizes, the cap on siblings, and whether it reached the end |
| Mp4Boxes.SplitPrints | server/internal/storage/mp4.go:292-330 | The boxes and the unread rest, printed, are the region: no byte is lost or read twice |
| Mp4Boxes.SplitAnnounced | server/internal/storage/mp4.go:292-330 | Every box found carries its own length, in four bytes, or in eight after a size of 1, or by a size of 0 if it is the last; and what is left unread, short of the cap, does not begin with such a box |
| Mp4Boxes.WidthsAgree | server/internal/storage/mp4.go:292-330 | Both widths of a size are the number whose digits in base 256 are the bytes, the most significant first |
| Mp4Boxes.SplitReplaced | server/internal/storage/mp4.go:292-330 | With any other payloads of the same lengths in place, the parser finds the same boxes |
| Mp4Outline.OutlineOfScrub | server/internal/storage/mp4.go:155-211 | Scrubbing keeps the length and, at every level of nesting, every header, every kept byte and what the walk does next: the outline of the scrubbed region is that of the original |
| Mp4Outline.ScrubTwice | server/internal/storage/mp4.go:155-211 | Scrubbing twice equals scrubbing once |
| Mp4Outline.ScrubCleans | server/internal/storage/mp4.go:161-211 | After the scrub every privacy box reached above the depth cap is all zero, and every privacy-named value in the first item list of a reached meta box is zero past its 8-byte prefix |
| Mp4Outline.ScrubZeroesTargets | server/internal/storage/mp4.go:161-211 | Byte by byte: a byte becomes zero if the walk is there to blank it and stays as it was otherwise |
| Mp4Outline.ScrubKeepsChildren | server/internal/storage/mp4.go:252-275 | Where the children of a meta box begin, QuickTime or ISO, reads the same after they are scrubbed |
| Mp4Privacy.PrivateValueBlank | server/internal/storage/mp4.go:161-211 | In the stripped file: in any meta box of a container reached above the depth cap, if the k-th name of the keys table holds a token (or the type is a privacy box), each data value of the entries numbered k of the first item list is zero past its first 8 bytes |
| Mp4Privacy.OtherEntryKept | server/internal/storage/mp4.go:178-211 | And an entry whose number names no such key, and whose type is no privacy box, is byte for byte what it was |
| Mp4Privacy.PrivacyBoxBlank | server/internal/storage/mp4.go:161-176 | In the stripped file every privacy box of a container reached above the depth cap is all zero |
| Mp4Privacy.OtherBoxKept | server/internal/storage/mp4.go:161-176 | And a box that is no privacy box, no container and no meta box is byte for byte what it was |
| Mp4Privacy.PrivacyNames | server/internal/storage/mp4.go:53-62 | The privacy boxes, by the eight four-character names |
| Mp4Privacy.ContainerNames | server/internal/storage/mp4.go:39-42 | The boxes the walk goes into, by name |
| Mp4Privacy.NamedIff | server/internal/storage/mp4.go:239-250 | A key is private if and only if its folded name is some text, a token, and some text |
| Mp4Privacy.MetadataKeysRead | server/internal/storage/mp4.go:213-237 | A keys box that holds a count and so many entries, each of its own size, reads as the names of the entries in order |
| Mp4Strip.BlankIlstValue | server/internal/storage/mp4.go:200-211 | In place: each data child of more than 8 bytes is zero past its first 8, nothing else in the buffer changes |
| Mp4Strip.StripMetaBox | server/internal/storage/mp4.go:178-198 | In place: the entries of the first item list with private names or types are blanked; the rest of the buffer is as it was |
| Mp4Strip.StripBoxes | server/internal/storage/mp4.go:161-176 | In place: the range of a container becomes its scrub, down to the depth cap; the rest of the buffer is as it was |
| Mp4Strip.StripLocationMetadata | server/internal/storage/mp4.go:147-159 | The whole buffer becomes the scrub of what it held |
| Mp4Strip.ReadMetadataKeys | server/internal/storage/mp4.go:213-237 | Reads the key names of the keys table up to the first malformed one, and none when the count is above the cap |
| Mp4Probe.ProbeMP4 | server/internal/storage/mp4.go:86-145 | The walk over the buffer gives the result, or the error, of the probe as a function of the file's boxes |
| Mp4Clip.AcceptedIff | server/internal/storage/mp4.go:86-145 | A clip is accepted if and only if all of it parses, it begins with a file type of a video brand, and its movie has a duration above 0 and at most 12000 ms and two positive sides; the answer is then that duration and that size |
| Mp4Clip.RefusedIff | server/internal/storage/mp4.go:86-145 | Each of the seven refusals, by the condition on the file under which it and no other is given |
| Mp4Clip.ClipOf | server/internal/storage/mp4.go:107-133 | The duration is the movie header's if positive, whatever the tracks say, or else that of the first track with a positive one; the size is that of the first of the largest tracks |
| Mp4Clip.ClipUnique | server/internal/storage/mp4.go:107-133 | And that leaves one answer |
| Mp4Clip.SizeShown | server/internal/storage/mp4.go:379-393 | A track's size is the whole part of the fixed-point sides, which change places under a quarter turn of the matrix |
| Mp4Clip.MovieMilliseconds | server/internal/storage/mp4.go:107-113 | A movie header that decodes gives duration times 1000 over timescale, rounded down, if that fits in 63 bits |
| Mp4Clip.TrackMilliseconds | server/internal/storage/mp4.go:395-416 | A track's media header gives its milliseconds, and the sample table does where the header gives none |
| Mp4Clip.SamplesTotal | server/internal/storage/mp4.go:418-441 | The sum of a sample table is, in 64 bits, the number of samples times their delta over all entries |
| Mp4Clip.VideoBrandIff | server/internal/storage/mp4.go:364-377 | A file type box has a video brand if and only if one of its four-byte words other than the second, the minor version, is one |
| Mp4Probe.ProbeOfStrip | server/internal/storage/mp4.go:86-211 | For every file, the probe of the scrubbed file gives exactly the result or the error of the probe of the original |
| Mp4Probe.ScaleToMsExact | server/internal/storage/mp4.go:443-452 | The 64-bit computation gives the exact number of milliseconds for every duration if and only if the timescale is at least 1000 |
| Mp4Probe.ScaleToMsLimit | server/internal/storage/mp4.go:443-452 | For one duration: exact if and only if its whole units are below 18446744073709551, or equal to it with a rest below 616 ms |
| Mp4Probe.ScaleToMsWraps | server/internal/storage/mp4.go:443-452 | A duration past that bound: 18446744073709552 seconds give 384 ms |
| GifFormat.ReadGifIff | server/internal/storage/gif.go:40-106 | A file is read as a GIF exactly when it begins with the print of one with 1 to 256 images, and as that one only: the grammar is unambiguous |
| GifFormat.TooManyIff | server/internal/storage/gif.go:67-75 | It is refused for too many frames exactly when it begins with 256 images and the introducer of one more |
| GifFormat.TableColours | server/internal/storage/gif.go:108-111 | A color table is two to the power of one more than the low three bits of colours, of three bytes each |
| GifSanitize.SkipSubBlocks | server/internal/storage/gif.go:113-134 | Advances past exactly one chain of sub-blocks, blanking payloads and keeping length bytes if asked; a failure means there is no complete chain |
| GifSanitize.SanitizeGIF | server/internal/storage/gif.go:40-106 | Succeeds exactly on the files of the grammar, returns the number of images, and leaves the print of the scrubbed GIF and the bytes after the trailer; each error is told from the other |
| GifSanitize.SanitizeTwice | server/internal/storage/gif.go:25-106 | A second run accepts the file, counts the same images and changes nothing |
| GifSanitize.NothingRevealed | server/internal/storage/gif.go:77-106 | A reader of the sanitized file finds the same blocks: comments and non-loop application extensions with the same sub-block lengths, all zero, every other block and the tail unchanged |
| GifSanitize.OnlyLoopsLeft | server/internal/storage/gif.go:88-106 | What a reader finds in the sanitized file under the label 0xFE is all zero; under 0xFF it is one of the two identifiers with 3 bytes, as it was, or all zero; under any other label it is as it was |
| GifSanitize.AnimationIff | server/internal/storage/gif.go:136-157 | The test on raw bytes finds exactly the loop-control extensions: one identifier, one 3-byte sub-block |
| RecapSelect.ChosenIsFair | server/internal/db/recap_select.go:66-126 | If the authors fit the limit, the chosen posts hold every author's best, at most three of each and at most the limit; their number is the smaller of the limit and the sum of the authors' top threes |
| RecapSelect.TopThreeOf | server/internal/db/recap_select.go:85-118 | The top three of an author are min(3, posts) many |
| RecapSelect.ChosenDominates | server/internal/db/recap_select.go:66-126 | Against any other set of posts that fair: it is no larger, and the i-th best chosen post is that rival's i-th best or outranks it |
| RecapSelect.ChosenWhenCrowded | server/internal/db/recap_select.go:119-122 | If the authors do not fit, the chosen posts are the best of the authors' best |
| RecapWall.SelectCollageCards | server/internal/db/recap_select.go:74-126 | The three loops and two sorts give the cards of the chosen posts, ranked from 1, guaranteed where the post is its author's best |
| RecapWall.WallUnique | server/internal/db/recap_select.go:50-126 | The Wall depends on the set of posts, not on the order they are read in |
| RecapCards.WallSays | server/internal/db/recap_select.go:50-169 | The cards count from 1, the most liked first and then the most discussed, each shows a post as a quote, a clip (a video) or a photo, and a guaranteed card is the only one of its author, no post of whom has more likes |
| RecapCards.EveryAuthorShown | server/internal/db/recap_select.go:66-126 | Where the authors fit the Wall each has a guaranteed card, and none has more than three |
| RecapAwards.AwardRankings | server/internal/db/recap_select.go:268-294 | Each award ranks exactly the members who qualify, a member's rank being the number of members ahead |
| RecapAwards.BestAwardPerMember | server/internal/db/recap_select.go:296-326 | Exactly the members who qualify for something are named, each for the award they rank best in, the first in judging order on a tie |
| RecapAwards.RanksDiffer | server/internal/db/recap_select.go:268-294 | Being ahead of another member for an award means a strictly better rank: no rank is shared |
| RecapAwards.FirstHasMost | server/internal/db/recap_select.go:268-294 | The first of an award has the highest value of those who qualify |
| Rosters.TallyPeople | server/internal/db/recap_select.go:171-212 | Counting in a map and sorting gives the roster: one entry for each author, busiest first |
| Rosters.RosterUnique | server/internal/db/recap_select.go:171-212 | The posts decide the roster |
| Rosters.RosterTotals | server/internal/db/recap_select.go:171-212 | A roster has as many entries as authors, and its post counts add up to the posts |
| Rosters.PersonFrom | server/internal/db/recap_select.go:171-212 | A person has the name and the photo of the first of their posts |
| RecapFilter.FilterRecapForViewer | server/internal/db/recap.go:253-349 | The loops give the payload without the blocked members' people, cards and awards, panels left empty, and their posts and posters subtracted |
| RecapFilter.FilterTwice | server/internal/db/recap.go:253-349 | Filtering by one set of members and then another equals filtering by both |
| RecapView.NothingOfBlocked | server/internal/db/recap.go:253-349 | No person, card or award of a blocked member is left anywhere in the payload, and no panel is left empty |
| RecapView.ViewOf | server/internal/db/recap.go:253-349 | What is left: the people, cards and awards of the others, each at the place the order among them gives; the panels with anything by one of them, of the same kind and title; Posts and Posters those of the people left; all else as it was |
| RecapBuild.RecapStatsOf | server/internal/db/recap.go:195-219 | Posts, likes, comments, clips, photos, places and posters as sums and set sizes over the candidates |
| RecapBuild.TotalsGrow | server/internal/db/recap.go:195-219 | Each post adds its own likes, comments and attachment to the totals, as a clip if the type begins with video/ |
| RecapBuild.BuildRecap | server/internal/db/recap.go:91-139 | Refuses exactly the periods below the bar of posts or posters; else the roster and every total are those of the posts, and there is a panel with the Wall, never empty, for each time it was asked for |
| RecapBuild.FilterStrangers | server/internal/db/recap.go:253-349 | Filtering a built recap by members who posted nothing changes nothing |
| RecapBuild.FilterIsRebuild | server/internal/db/recap.go:253-349 | The filtered roster, Posts and Posters are those of a recap built from the unblocked posts alone |
| RecapSchedule.SameHourSamePeriod | server/internal/api/recap.go:93-122 | Any two ticks in one local hour compute the same period, or that none is due |
| RecapSchedule.DueNow | server/internal/api/recap.go:93-122 | A due period ended at the top of the present local hour |
| RecapSchedule.WeeklyDueIff | server/internal/api/recap.go:97-131 | A weekly recap is due if and only if the local time is in the set hour of the set ISO weekday, the first of January 1970 being a Thursday |
| RecapSchedule.MonthlyDueIff | server/internal/api/recap.go:97-122 | A monthly recap is due if and only if the local time is in the set hour of a day numbered 1, and its period is the month before |
| RecapSchedule.WeeklyWindow | server/internal/api/recap.go:97-131 | A weekly window ends on a weekly boundary and is a week long; on a boundary it is due |
| RecapSchedule.WeeklyDisjoint | server/internal/api/recap.go:97-131 | Two weekly windows are the same or do not overlap |
| RecapSchedule.WeeklyCovers | server/internal/api/recap.go:97-131 | Every instant lies in the weekly window of some tick |
| RecapProtocol.StepKeepsInv | server/internal/db/recap.go:744-845 | Every step of every process keeps one holder for each lock hash, and post ids given out once |
| RecapProtocol.CommitUniqueIff | server/internal/db/recap.go:798-828 | A commit leaves one recap of its key if and only if every recap there was of it is the one it replaces |
| RecapProtocol.UniqueRunIff | server/internal/db/recap.go:764-830 | A key has at most one recap at every point of a run if and only if every commit of the run for it replaces all its recaps |
| RecapProtocol.StepKeepsSafe | server/internal/db/recap.go:764-830 | With the comparison at the check, no step of any process makes a second recap or spoils a check already passed |
| RecapProtocol.GuardedUnique | server/internal/db/recap.go:764-830 | In every interleaving in which a check passes only if the duplicate found is the post to be replaced, the key has at most one recap at every point |
| RecapProtocol.GuardExact | server/internal/db/recap.go:794-828 | A request let past its check that goes straight on to commit leaves one recap if and only if the comparison holds |
| RecapProtocol.AtMostOneRecap | server/internal/db/recap.go:764-845 | At every point of any interleaving there is at most one committed scheduled recap of a cadence and start, and at most one manual recap of a period and panels if no request replaces one |
| RecapProtocol.RequestServed | server/internal/db/recap.go:781-830 | Progress: who has the lock of a key without a recap, or replaces one, can check, write and commit, and the table then holds what it held, less the post replaced, and one recap of the key with the id given out |
| RecapProtocol.RequestRefused | server/internal/db/recap.go:794-800 | With a duplicate and nothing to replace, or on schedule, the check gives up the lock and changes neither rows nor ids |
| RecapProtocol.AloneServed | server/internal/db/recap.go:764-830 | A request that replaces nothing, or every recap of its key, run alone while nobody holds its lock, leaves exactly one recap of that key |
| RecapProtocol.NoDeadlock | server/internal/db/recap.go:781-830 | Who waits for a lock can take it, or somebody else holds it and can take a step |
| RecapProtocol.AbortFrees | server/internal/db/recap.go:781-790 | A transaction that fails leaves no recap, and who was kept waiting by it can take the lock |
| RecapProtocol.TickIff | server/internal/api/recap.go:55-91 | A tick asks for a recap if and only if a period is due, began no earlier than the schedule was set, and has 5 posts a week or 20 a month |
| RecapProtocol.OneRecapPerHour | server/internal/api/recap.go:52-178 | All ticks of one local hour, in any processes, leave at most one scheduled recap |
| RecapProtocol.ReplaceRace | server/internal/db/recap.go:764-830 | A run in which two requests to replace the same post leave two recaps of one key |
| EventHome.CountEpisodes | server/internal/db/events_cluster.go:265-285 | Counts the days that no day of the set precedes by three or less |
| EventHome.ComputeHomeArea | server/internal/db/events_cluster.go:216-263 | Exactly the places with posts by two members on days that make three episodes, within the look-back |
| EventHome.MostCommonKey | server/internal/db/events_cluster.go:158-171 | The highest count, the smallest string on a tie, whatever the order of the map |
| EventHome.ComputeHomeBases | server/internal/db/events_cluster.go:287-353 | Exactly the authors with a place of at least three days, each with the place of most days, the smallest on a tie |
| TripRuns.SplitRuns | server/internal/db/events_cluster.go:418-447 | The runs, one after another, are the posts in order of time; no day gap in a run is above 3 and no run spans more than 30 days |
| TripRuns.FewestPostRuns | server/internal/db/events_cluster.go:418-447 | However the same posts are ordered by time and split within both limits, there are no fewer runs |
| TripRuns.RunElements | server/internal/db/events_cluster.go:418-447 | A run holds all the posts of its days: no day is shared by two runs |
| TripRuns.SpansOfSet | server/internal/db/events_cluster.go:418-447 | The first and last days of the runs depend on the set of days only, not on how the posts were sorted |
| EventBuild.BuildEvent | server/internal/db/events_cluster.go:542-611 | The event of a set of posts: ids in order of time, first and last day, roster, photo total, most liked cover, most common name |
| EventBuild.EventUnique | server/internal/db/events_cluster.go:542-611 | A set of posts has one event of a kind |
| EventBuild.EventCounts | server/internal/db/events_cluster.go:542-611 | Its ids are those of the posts, once each; participants' counts add up to them; its dates are attained and enclose every post |
| EventFacts.CoverMostLiked | server/internal/db/events_cluster.go:542-611 | An event has a cover exactly when one of its posts has, and it is of a post with the most likes of those |
| EventFacts.PhotoTotal | server/internal/db/events_cluster.go:542-611 | Its photos are the sum over the set of posts, whatever their order |
| EventFacts.PlaceMostCommon | server/internal/db/events_cluster.go:149-171 | Its place is a location its posts name, and no other is named by more of them |
| EventFacts.ParticipantPosts | server/internal/db/events_cluster.go:542-611 | Each participant is counted the posts of the set they wrote, at least one |
| EventFacts.BusiestFirst | server/internal/db/events_cluster.go:542-611 | No participant comes before a busier one |
| EventFacts.PostsInOrder | server/internal/db/events_cluster.go:542-611 | Its posts are listed in order of time |
| EventDetect.BuildTripIfQualifies | server/internal/db/events_cluster.go:449-492 | A run is a trip exactly when two of its authors are away: home known and elsewhere, or unknown and the run has several days |
| EventDetect.DetectTrips | server/internal/db/events_cluster.go:374-416 | One event for each trip and no other, and the consumed ids are exactly those of their posts |
| EventDetect.DetectGatherings | server/internal/db/events_cluster.go:494-540 | One event for each place and day with three posts by two authors that no trip consumed, and no other |
| EventDetect.DetectEvents | server/internal/db/events_cluster.go:355-372 | The list, in strict order, of the events of the set of posts |
| Events.DetectionUnique | server/internal/db/events_cluster.go:355-372 | A set of posts has one list of events |
| Events.OrderIndependent | server/internal/db/events_cluster.go:355-372 | Any permutation of the posts gives the identical list |
| Events.EventsDisjoint | server/internal/db/events_cluster.go:374-416 | No post id is in two events of the list |
| Events.BucketNeverSplit | server/internal/db/events_cluster.go:374-416 | The posts of a place on one day are all in an event or none is |
| Events.NoTripAtHome | server/internal/db/events_cluster.go:374-403 | No post of a trip is at a place of the group's home area |
| EventFacts.TripTravellers | server/internal/db/events_cluster.go:374-492 | All posts of a trip are at one place outside the home area, and two of their authors have their home elsewhere, or no known home and a trip of more than a day |
| EventFacts.TripListed | server/internal/db/events_cluster.go:374-492 | And every run of posts outside the home area with two such authors is a trip of the list |
| EventFacts.EventsInOrder | server/internal/db/events_cluster.go:613-631 | Events are listed by last day, the newest first; of one day trips before gatherings; and then by first day |
| Events.OneGathering | server/internal/db/events_cluster.go:494-540 | A place and day no trip touches is exactly one gathering with three posts by two authors, and none otherwise |
| EventBuild.EventOrder | server/internal/db/events_cluster.go:613-631 | The ranking of events is an order, and total on events with different first posts |
| Places.PlaceUnique | server/internal/db/places.go:295-306 | A location has one place: every tie in its name, cover and coordinates is decided |
| Places.OrderIndependent | server/internal/db/places.go:289-306 | Any permutation of the posts gives the identical list of places |
| Places.PostsConserved | server/internal/db/places.go:308-323 | The post counts of the list add up to the number of posts |
| Places.CoordsGrounded | server/internal/db/places.go:332-451 | Coordinates exactly when posts store some or there is a candidate; the stored mean if posts store some, else one of the place's own candidates |
| Places.GuessOnlyWithoutAnchors | server/internal/db/places.go:422-451 | If any place is guessed, every place of the list with coordinates is |
| Places.GuessedIff | server/internal/db/places.go:422-451 | A place is guessed exactly when it has candidates and no place at all is anchored |
| PlaceFacts.AtStoredMean | server/internal/db/places.go:344-371 | A post with both coordinates puts its place, for certain, at the mean of those that have them |
| PlaceFacts.AtOnlyCandidate | server/internal/db/places.go:344-371 | Without one, a name with one candidate is there |
| PlaceFacts.AtDominant | server/internal/db/places.go:373-420 | A candidate with ten times the population of every other, and a thousand if no other has any, is the place if it lies within 200 km of the centre of the certain places, or if there are none |
| PlaceFacts.AtNearest | server/internal/db/places.go:422-451 | Otherwise the place is a candidate with none nearer to the centre of the anchors |
| PlaceFacts.AtMostPopulous | server/internal/db/places.go:422-451 | And without any anchor a candidate with none more populous, marked as guessed |
| PlaceFacts.PlacesInOrder | server/internal/db/places.go:690-701 | Places are listed by number of posts, the most first, and then by their latest post |
| PlaceStats.BuildPlaceStats | server/internal/db/places.go:453-496 | Counts, totals, first and last time, cover and name of a place's posts |
| PlaceStats.AverageStoredCoords | server/internal/db/places.go:507-529 | The mean over the posts with both coordinates, and none when there are none |
| PlaceStats.AnchorCandidate | server/internal/db/places.go:614-672 | Finds the candidate with ten times any other's population, and at least 1000 if no other has any, or that there is none |
| PlaceStats.NearestCandidate | server/internal/db/places.go:563-580 | The first of the candidates nearest to the centroid |
| PlaceBuild.PassOne | server/internal/db/places.go:332-371 | Every place is settled by its posts or its only candidate, the others wait, and the anchors are those of the settled places |
| PlaceBuild.PassTwo | server/internal/db/places.go:373-420 | The waiting places with a dominant candidate near the certain anchors, or with no anchor to check, are settled, the others still wait |
| PlaceBuild.PassThree | server/internal/db/places.go:422-451 | Every place is where the whole resolution puts it |
| PlaceBuild.BuildPlaces | server/internal/db/places.go:295-306 | The list, in strict order, with one place for each location |
| GazetteerFile.HeaderRoundTrip | server/internal/gazetteer/gazetteer.go:142-175 | The header that was packed reads back with every count and offset |
| GazetteerFile.PackedHolds | server/internal/gazetteer/data/pack_places.py:185-230 | Whatever fits the field widths packs into a file whose columns hold every row, sorted by hash, and every entry |
| GazetteerFile.SortKeeps | server/internal/gazetteer/data/pack_places.py:185-195 | Sorting by hash keeps the rows of each hash in build order |
| GazetteerFile.Lookup | server/internal/gazetteer/gazetteer.go:290-351 | The binary search and the scan of the run, with a failed read at any point |
| GazetteerFile.LookupFindsMatches | server/internal/gazetteer/gazetteer.go:290-351 | On the packed file, looking up a hash gives exactly the rows with that hash in build order, split by their flag |
| Gazetteer.KeyRowsFor | server/internal/gazetteer/data/pack_places.py:166-182 | A primary row, and an alias row for each alias whose key differs |
| Gazetteer.BuildTables | server/internal/gazetteer/data/pack_places.py:233-250 | The entries and key rows of all places, in order |
| Gazetteer.AliasShortlist | server/internal/gazetteer/data/pack_places.py:99-134 | At most the allowed number of names offered, none the primary and no two the same up to case: the shortest of a list with one name for each way the offered ones fold |
| Gazetteer.FindCandidates | server/internal/gazetteer/gazetteer.go:407-511 | The search of a location in the file, with a failed read at any point |
| Gazetteer.CandidatesAreReference | server/internal/gazetteer/gazetteer.go:407-511 | Without a colliding hash it is the reference on the place list: places of that name; those with that other name if there are none; both if every place of that name is unpopulated |
| GazetteerSearch.FoundByName | server/internal/gazetteer/gazetteer.go:468-511 | End to end: on the packed file the search for a packed place's name, a comma and its country, in any spelling that folds alike, finds the place's coordinates and population, whatever collides |
| GazetteerSearch.FoundByAlias | server/internal/gazetteer/gazetteer.go:468-511 | So does the search for another of its names, if no populated place has that one for its own and no hash collides |
| GazetteerSearch.OnlyNamesakes | server/internal/gazetteer/gazetteer.go:468-511 | Where a populated place has the very name, only places of that name are found |
| GazetteerSearch.AsksForKey | server/internal/gazetteer/gazetteer.go:468-484 | A string asks for the key the packer wrote for that name and country |
| GazetteerSearch.AsksForNothing | server/internal/gazetteer/gazetteer.go:468-484 | Nothing is asked for if and only if no comma divides the string into a name and, last, a known country |
| Gazetteer.FindsItself | server/internal/gazetteer/data/pack_places.py:166-182 | Every packed place is in the primary tier of a lookup of its own name, whatever collides |
| Gazetteer.NeverInBothTiers | server/internal/gazetteer/data/pack_places.py:166-182 | Without a colliding hash, no place is in both tiers of one key |
| Gazetteer.MostPopulous | server/internal/gazetteer/gazetteer.go:513-536 | The first of the candidates with the highest population |
| Activity.CursorRoundTrip | server/internal/db/activity.go:89-113 | Parsing the text of a cursor gives the cursor back, for every timestamp of the years 0 to 9999 |
| Activity.CursorTextInjective | server/internal/db/activity.go:89-94 | Two positions have the same text only if they are the same |
| Activity.CursorIff | server/internal/db/activity.go:96-113 | A text is read as a cursor if and only if it is a timestamp, the kind and a 64-bit number between two bars, and no other |
| Activity.QueryPage | server/internal/db/activity.go:176-206 | The first rows after the cursor, newest first: a row left out is older than all of a full page |
| Activity.ItemSays | server/internal/db/activity.go:200-243 | Each item says who did what to which post; a comment shows its text, or GIF if it has none but an attachment, and a like nothing |
| Activity.PageUnique | server/internal/db/activity.go:76-87 | The order is total, so a request has one page |
| Activity.ReadActivity | server/internal/db/activity.go:176-231 | The items of that page, and the cursor of its last row, or none if the page is short |
| Activity.SessionHonest | server/internal/db/activity.go:176-231 | Every item delivered was in the log when its page was read |
| Activity.PagingDeliversAll | server/internal/db/activity.go:176-231 | Following the cursor to the end, with any limits and any rows coming and going, delivers in order and exactly once every item present throughout |
| Activity.NewestFirst | server/internal/db/activity.go:176-231 | Over all pages of a session, what is delivered is in order of time, the newest first |
| RateLimit.RateLimiter.AllowKey | server/internal/api/ratelimit.go:37-63 | The answer and the whole new state of a call |
| RateLimit.RateLimiter.EvictIdle | server/internal/api/ratelimit.go:144-153 | Exactly the buckets not used in the last ten minutes go |
| RateLimit.SweepInvisible | server/internal/api/ratelimit.go:37-63 | If ten minutes refill a bucket, the limiter answers every run of calls like one that never evicts |
| RateLimit.SweepInvisibleIff | server/internal/api/ratelimit.go:37-63 | And only then: otherwise some run tells the two apart |
| RateLimit.RefillsInTenMinutes | server/internal/api/ratelimit.go:28-35 | A burst of at least 1 and at most ten minutes of tokens is enough |
| RateLimit.ConfiguredSweepInvisible | server/internal/api/ratelimit.go:98-142 | So eviction is invisible in every configured limiter: these and the one of server/internal/api/server.go:41 |
| RateLimit.WindowBound | server/internal/api/ratelimit.go:37-63 | In any window the calls allowed for one key are at most the burst plus the rate times its length, whatever other keys do |
| RateLimit.FirstBurst | server/internal/api/ratelimit.go:37-63 | A key seen for the first time is allowed its burst at one instant, and no call more |
| RateLimit.WaitAllows | server/internal/api/ratelimit.go:37-63 | A key is allowed once its rate times the time since its last call, in minutes, reaches one token |
| RateLimit.RefusalFree | server/internal/api/ratelimit.go:37-63 | A refused call costs nothing: the next finds the bucket as if it had not been made |
| OutlineCodec.Buffer.WriteVarint | app/assets/worldmap/outline_codec.py:25-33 | Appends the base-128 bytes of the number |
| OutlineCodec.VarintBytes | app/assets/worldmap/outline_codec.py:25-33 | Every byte but the last has its top bit set, and the groups of seven bits make the number, the least significant first |
| OutlineCodec.Buffer.PackGroup | app/assets/worldmap/outline_codec.py:65-82 | Appends the bytes of the group, each ring's deltas starting from the origin |
| OutlineCodec.GroupRoundTrip | app/assets/worldmap/outline_codec.py:21-82 | A decoder returns exactly the rings and the bytes after them, for all rings of unbounded integers and all trailing bytes |
| OutlineCodec.GroupUnique | app/assets/worldmap/outline_codec.py:21-82 | So two groups followed by anything are the same bytes only if they are the same rings and the same rest |

## Left out

- HTTP handlers, routing, JSON, authorization, push notifications, configuration and start-up: no part of the model.
- SQL: a query is modelled by what it selects, in what order (activity) or as one step of a transaction (recaps).
- Media: image decoding and scaling, file names and storage.
- Leaf boxes of an MP4 file: the decoders of mvhd, tkhd, mdhd and stts belong to a library and are parameters; the probe theorem holds for any decoders.
- `strings.ToLower`, `strings.Fields`, Python's `lower`, `split` and name stripping: parameters (`Fold`, `Norm`, `Naming`, `Names`).
- FNV-1a and the hash of a lock key: parameters; an absence of collisions is assumed only where a row says so.
- Rounding: tokens and coordinates are real numbers; the great-circle distance is a parameter.
- The text of timestamps (RFC 3339 with nanoseconds): a parameter that parses back what it prints for the years 0 to 9999, the years that format can write.
- Calendar: the first day of a month and `AddDate` by months are parameters, so nothing is claimed of how monthly windows follow one another; the look-back of six months is a parameter `cutoff`.
- The saturation of Go's `time.Sub` for instants centuries apart.
- GifSanitize.SanitizeGIF: on an error it states only which error and that each byte is as it was or zero, because a refused file is thrown away.
- GazetteerFile.PackedHolds: the packer's in-place list sort is the function `StableSort`, so sharing of the caller's list is not modelled.
- RecapBuild.BuildRecap: the label of the period and the group's name and color are passed through.
- RecapProtocol.AtMostOneRecap: leaves out the pre-check before the transaction and the unique index behind it, which can only refuse more; a recap deleted by hand may be made again, so it speaks of recaps that exist at one time.
- EventDetect.DetectEvents: takes folded locations and the start of the look-back as given, and requires distinct post ids, which are a primary key.
- PlaceBuild.BuildPlaces: returns a sorted copy of the array the passes fill, where the source sorts that slice.
- RecapWall.SelectCollageCards: the media of a card is carried over as one value, without its URL fields.
- The values shown for awards and the counting of a member's activity (server/internal/db/recap.go:493-678): sums over queries, no property beyond them.
- Shapely geometry and the GeoNames row parser before the packers; timelines, memories and forgotten photos, which are queries.
