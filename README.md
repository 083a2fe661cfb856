# Random groups of the chat bot, modelled in Dafny

The bot forms random conversation groups of opted-in users. It shuffles the
participant ids, then splits them into groups of a target size `g`.

- **Cutting into chunks** (`_generate_groups`): the list becomes consecutive
  slices of `n`, so the last slice may be shorter.
- **Assigning groups** (`_assign_random_groups`): how the list is split depends
  on `g` and on `mod = N % g`, where `N` is the number of participants:
  - `g == 2`: an odd leftover joins the front of the first pair.
  - `g > 2` and `mod > 1`: the first `mod` participants form one short group,
    placed after the full groups.
  - `g > 2` and `mod == 1`: the first `g + 1` participants are meant to form two
    groups.
  - `g > 2` and `mod == 0`: full groups only.
- **Picking the weekday** (`schedule_helper`): a number from 1 to 7 chooses the
  weekday on which a job is registered.

There are two modules:

- `GroupPartition` (`group_partition.dfy`) covers the two `RandomGroups`
  methods:
  - `Chunks` is the recursive specification of `_generate_groups`.
    `RandomGroups.GenerateGroups` is the generator's loop, proved equal to
    `Chunks`.
  - `AssignedGroups` gives the outcome of `_assign_random_groups` for an
    already shuffled list. `RandomGroups.AssignRandomGroups` follows the source
    step by step. It works on a `ParticipantList` object: it reassigns the
    object's `ids` with the shuffled order, and pops the head when an odd number
    of participants is being paired, as the source does to the caller's list.
  - The shuffle is an input: any sequence with the same multiset as the list.
  - The outcomes include the source's failure paths:
    - a `ZeroDivisionError` for `g == 0`;
    - the `None` that comes back for `g == 1` or a negative `g`;
    - the `IndexError` for one participant in pairs.
- `Scheduling` (`scheduling.dfy`) covers the weekday dispatch of
  `schedule_helper`. A call to the scheduler library is recorded as a `Job`
  value.

The "every participant in exactly one group" property is `IsPartitionOf`: the
multiset of all group members equals the multiset of the input. It holds for
every valid call except the remainder-one branch. There, the code as written
uses the same slice twice (see Findings). The model follows the code as
written and proves what it actually returns in that branch. `IntendedGroups` is
the corrected definition, and the partition property is proved for it in every
branch.

Edge cases of the remainder handling, as the code behaves:

- In the remainder-one branch, the code's slices put the smaller half
  (`floor((g+1)/2)`) first. This matches the sizes "4, 2, 3" in the comment at
  `MrPeanutButter/bot_utils.py:60`, so `IntendedGroups` does the same.
- Fewer than `g` participants form one undersized group only when there are at
  least 2 of them:
  - with `g == 2` and `N == 1` the call raises `IndexError` (line 51);
  - with `g > 2` and `N == 1` the remainder-one branch returns two empty groups
    and loses the participant (`EmptyGroupsForSingleParticipant`).

## Model

| member | source | states |
|---|---|---|
| `GroupPartition.RandomGroups.constructor` | MrPeanutButter/bot_utils.py:18-28 | the object keeps the group size it was built with |
| `GroupPartition.RandomGroups.GenerateGroups` | MrPeanutButter/bot_utils.py:30-33 | the loop over `range(0, len(lst), n)` collects exactly the chunks `Chunks(lst, n)` |
| `GroupPartition.ChunksFlatten` | MrPeanutButter/bot_utils.py:30-33 | the chunks concatenated give back the list exactly |
| `GroupPartition.ChunksShape` | MrPeanutButter/bot_utils.py:30-33 | every chunk has 1 to n elements, every chunk but the last has exactly n, and there are ceil(len/n) chunks |
| `GroupPartition.ChunksOfMultiple` | MrPeanutButter/bot_utils.py:30-33 | when n divides the length, every chunk has exactly n elements |
| `GroupPartition.RandomGroups.AssignRandomGroups` | MrPeanutButter/bot_utils.py:35-73 | the result is `AssignedGroups` of the shuffled order; the caller's list is left shuffled (or untouched when `% 0` fails), minus its head in the odd-pairs branch; wherever the partition holds, the groups are a permutation of the original list |
| `GroupPartition.PairsForEvenCount` | MrPeanutButter/bot_utils.py:53-55 | g = 2 and even N: every group is a pair and the groups concatenated give the shuffled list |
| `GroupPartition.PairsForOddCount` | MrPeanutButter/bot_utils.py:47-52 | g = 2 and odd N >= 3: the first group has 3 members with the popped head at its front, all others are pairs, and the groups concatenated give the shuffled list |
| `GroupPartition.SingleParticipantPairsFail` | MrPeanutButter/bot_utils.py:48-51 | g = 2 and N = 1: indexing the first group fails with IndexError |
| `GroupPartition.FullGroupsForMultiple` | MrPeanutButter/bot_utils.py:72-73 | g > 2 and mod = 0: every group has exactly g members, the groups concatenated give the shuffled list, and N = 0 gives no groups |
| `GroupPartition.ShortGroupForLargeRemainder` | MrPeanutButter/bot_utils.py:62-66 | g > 2 and mod > 1: full groups of the participants after the first mod, then the first mod as one group; every group but the last has exactly g members and the last has mod, so sizes lie in [2, g]; membership is preserved exactly; 2 <= N < g gives one group of everyone |
| `GroupPartition.UnitRemainderShape` | MrPeanutButter/bot_utils.py:67-71 | g > 2, mod = 1 and N >= g + 1: full groups of the participants after the first g + 1, then the first (g + 1) / 2 participants twice; every group but the last two has exactly g members, the last two have (g + 1) / 2, and all sizes lie in [2, g] |
| `GroupPartition.DuplicatedHalfForUnitRemainder` | MrPeanutButter/bot_utils.py:67-71 | in that branch the last two groups are equal; with distinct ids, participants (g + 1) / 2 to g are in no group and the first participant is in two |
| `GroupPartition.EmptyGroupsForSingleParticipant` | MrPeanutButter/bot_utils.py:67-71 | g > 2 and N = 1: the result is two empty groups |
| `GroupPartition.InvalidGroupSize` | MrPeanutButter/bot_utils.py:42-61 | g = 0 fails on the remainder with ZeroDivisionError; g = 1 or a negative g matches neither branch and returns None |
| `GroupPartition.PartitionWhereItHolds` | MrPeanutButter/bot_utils.py:42-73 | for g >= 2, N != 1 and outside the remainder-one branch: every participant is in exactly one group, and sizes lie in [2, g] (in [2, 3] for pairs) |
| `GroupPartition.PartitionIff` | MrPeanutButter/bot_utils.py:42-73 | for g >= 2 and at least two distinct participants, the result is a partition if and only if the remainder-one branch is not taken |
| `GroupPartition.IntendedUnitRemainderPartition` | MrPeanutButter/bot_utils.py:57-71 | the corrected remainder-one split keeps every participant exactly once |
| `GroupPartition.IntendedUnitRemainderSizes` | MrPeanutButter/bot_utils.py:57-71 | the corrected split gives groups of exactly g, then groups of (g + 1) / 2 and g + 1 - (g + 1) / 2, all within [2, g] (4, 2, 3 for g = 4 as the comment says) |
| `GroupPartition.IntendedIsPartition` | MrPeanutButter/bot_utils.py:42-73 | with the correction, every valid call partitions the participants, with sizes in [2, g] (in [2, 3] for pairs) for N >= 2 |
| `GroupPartition.DuplicatedHalfExample` | MrPeanutButter/bot_utils.py:60-70 | five participants in groups of four: the code gives [a, b] twice, the corrected split gives [a, b] and [c, d, e] |
| `Scheduling.SelectWeekday` | MrPeanutButter/bot_utils.py:133-146 | a weekday is selected exactly for the numbers 1 to 7, and the selected day's number is the input |
| `Scheduling.SelectDayNumber` | MrPeanutButter/bot_utils.py:133-146 | each weekday is selected by its own number: 1 is Monday and so on up to 7 for Sunday |
| `Scheduling.ScheduleHelper` | MrPeanutButter/bot_utils.py:124-148 | at most one job is registered; one is registered exactly for the numbers 1 to 7, with the given interval, time and action on the day of that number |
| `Scheduling.ScheduleHelperSelects` | MrPeanutButter/bot_utils.py:133-148 | the registered job is on the weekday `SelectWeekday` picks, and nothing is registered when it picks none |

## Findings

| source | as written | input that shows it | evidently intended | confidence | as-written member | corrected member |
|---|---|---|---|---|---|---|
| MrPeanutButter/bot_utils.py:70 | the second group is `temp[:len(temp)//2:]`, the same slice as the first | g = 4, shuffled order [a, b, c, d, e] gives [[a, b], [a, b]]: c, d and e are in no group and a, b are in two | `temp[len(temp)//2:]`, giving [[a, b], [c, d, e]] (the sizes "4, 2, 3" of the comment at line 60) | high (proved; not executed) | `GroupPartition.DuplicatedHalfForUnitRemainder` | `GroupPartition.IntendedIsPartition` |

## Left out

- The shuffle (`random.shuffle`, line 44) is not modelled as randomness. It is the `shuffled` parameter, which can be any permutation of the list. Seeding from the clock (line 83) is left out.
- `start_group_chats` (lines 75-106) is left out. It reads the two cohorts from the participation store, concatenates the groups of both, and posts to the chat platform, which is all external I/O.
- `schedule_group_chats` and `schedule_messages` are endless polling loops that sleep between polls (lines 108-121 and 200-206), and are left out.
- The scheduler library's own handling of a registration, such as checking the interval and time string, is left out. A registration is only recorded as a `Job`. `**kwargs` belongs to the action value.
- `RandomGroupParticipation` (lines 155-206) only sends messages, and is left out.
- `pick_random_quote` (lines 212-216) is file I/O plus random sampling, and is left out.
- The database helper `DataBaseUtils` and the JSON prompt files are not part of this model.
- The bot token, prompts and channel name of `RandomGroups` are left out, because the partitioner never reads them. Only the group size is kept.
- GroupPartition.RandomGroups.GenerateGroups: requires n >= 1. With n = 0 Python's `range` raises ValueError, and a negative n yields no chunks. The only callers pass a group size of at least 2.
- GroupPartition.Chunks: requires n >= 1, for the same reason.
- Participant ids are plain strings in the methods, and the specification functions are generic. The format of the platform's ids is not modelled.
