# Elle blog contest ranking, in Dafny

This project models the vote ranking of the `Elle` class in `elle.rb`. The
class fetches the contest's vote list from elle.fr. Each entry of that list
has a `blog_id` and a `votes` field, both strings. The class then offers:

- `get_classement`: sorts the list by `votes.to_i`, largest first;
- `classement`: numbers the first ten ranked entries 1, 2, … with a running
  counter, renders each as `"<rank>. #<blog_id> - <votes> votes"` and joins
  the lines with `"\n"`;
- `blog(id)`: walks the ranking with a 1-based counter. It returns the line
  of the first entry whose `blog_id.to_i` equals `id`. When no entry matches,
  it returns the ranked array itself, which is what Ruby's `each` yields.

The fetched list is a parameter of every operation (`fetched: seq<Entry>`).
The network request is not modelled.

Modules:

- `RubyText` (`ruby_text.dfy`) models the parts of Ruby's core library the
  code relies on:
  - `String#to_i` in base 10 (`ToI`): leading whitespace, an optional sign,
    an optional `0d` radix prefix, then decimal digits, where one `_` may
    stand between two digits; a string without a numeral gives 0;
  - `Integer#to_s` for ranks (`NatToString`);
  - `Array#join("\n")` (`JoinLines`);
  - `Pieces`, which cuts a text at its newlines. It is a specification device
    for "the lines of the output", not a model of `String#split`.
- `Ranking` (`ranking.dfy`) holds the entries and the sort key, and the
  predicate `IsRanking` ("a permutation ordered by non-increasing
  `votes.to_i`"). `GetClassement` is an insertion sort proved to produce a
  ranking.
- `Elle` (`elle.dfy`) holds the line format and the `Classement` and `Blog`
  methods. Both are written as loops with the source's counter. Their
  contracts rest on the specification functions `ClassementText` and
  `FirstMatch`, and the lemmas about those functions state the output format.

Ruby's sort is not stable, so the source fixes no order among entries with
equal vote counts. `GetClassement` returns one particular ranking.
Accordingly:

- every format and search lemma in `Elle` is stated for an arbitrary list
  `ranked`, so it holds for any ranking;
- `RankingsAgreeOnVotes` proves that any two rankings of the same list have
  the same sequence of vote counts, so they differ only in the order of tied
  entries.

## Model

| member | source | states |
|---|---|---|
| `Ranking.GetClassement` | elle.rb:16-18 | The result is a ranking of the fetched list. It holds the same entries, each as often, so it has the same length. Its `votes.to_i` never increase along the list. |
| `Ranking.Insert` | elle.rb:17 | Inserting an entry into a ranked list keeps it ordered by non-increasing votes, adds exactly that entry to the multiset and grows the length by one. |
| `Ranking.VoteCounts` | elle.rb:17 | One vote count per entry, in list order. The entries are ordered by non-increasing `votes.to_i` if and only if their vote counts descend. |
| `Ranking.RankingsAgreeOnVotes` | elle.rb:17 | Any two rankings of the same fetched list have the same length and list the same vote counts in the same order. The unspecified tie order changes only which tied entry sits where. |
| `Ranking.VoteCountsOfPermutation` | elle.rb:17 | Permuting the entries permutes their vote counts. |
| `Ranking.DescendingUnique` | elle.rb:17 | Two descending integer lists holding the same numbers are equal. |
| `Ranking.RankingStartsWithMostVotes` | elle.rb:17 | The first entry of a ranking has at least the votes of every fetched entry. |
| `Elle.RankingKeepsEntries` | elle.rb:17 | An entry occurs in the ranking if and only if it occurs in the fetched list. |
| `RubyText.NatToString` | elle.rb:22 | The decimal form of a rank is non-empty, all digits, and has no leading zero. |
| `RubyText.ToIInvertsToS` | elle.rb:33 | `String#to_i` of `Integer#to_s` of a non-negative integer gives the integer back. |
| `RubyText.ToI` | elle.rb:17 | `String#to_i` is negative only when the text after its leading whitespace starts with `-`. |
| `RubyText.ToIWithoutNumeral` | elle.rb:33 | A string with neither a digit nor a sign after its leading whitespace converts to 0. |
| `RubyText.ToISkipsRadixPrefix` | elle.rb:33 | `String#to_i` reads past a `0d` prefix: `"0d"` followed by a decimal numeral and a non-digit, non-`_` character is the numeral's value. |
| `RubyText.ToIReadsLeadingNumber` | elle.rb:33 | `String#to_i` of a decimal numeral followed by a character that is neither a digit nor `_` is the numeral's value. The exception is `"0"` followed by `d` or `D`, which reads as a radix prefix. |
| `RubyText.DigitValues` | elle.rb:33 | A run of digits gives one digit value per digit, and `String#to_i`'s numeral reader reads the whole run as exactly those digits. |
| `RubyText.NumeralOfDigits` | elle.rb:33 | A run of digits ended by such a character is read in full as the numeral. |
| `RubyText.PiecesOfJoinLines` | elle.rb:22 | Joining at least one newline-free line with `"\n"` and cutting the result at its newlines gives back exactly those lines. |
| `RubyText.JoinLines` | elle.rb:22 | A join is empty if and only if there is no line or a single empty line. |
| `RubyText.JoinLinesEndsWithLast` | elle.rb:22 | A join of lines ends with its last line, so nothing follows it. |
| `Elle.Top` | elle.rb:22 | The shown entries are a prefix of the ranking with at most ten entries. There are exactly ten when the ranking has at least ten, and the whole ranking otherwise. |
| `Elle.Line` | elle.rb:34 | A line ends in `" votes"`. It holds a newline only if its `blog_id` or its `votes` string does. |
| `Elle.Numbered` | elle.rb:21-22 | Numbering the entries from a first rank gives one line per entry. Line i carries rank `first + i` and entry i. The ranks are consecutive. |
| `Elle.Classement` | elle.rb:20-23 | The loop with its counter produces the joined, numbered lines of the first min(10, n) ranked entries. The text is empty if and only if the fetched list is empty. When no field of the shown entries holds a newline, the text has exactly min(10, n) lines. |
| `Elle.ClassementText` | elle.rb:20-23 | `classement`'s text is empty if and only if nothing is ranked. |
| `Elle.ClassementLines` | elle.rb:22 | When the shown fields hold no newline, the text splits back into exactly the numbered lines. There are min(10, n) of them, one newline separates neighbours, and the text ends in `" votes"` with no trailing newline. |
| `Elle.ClassementEndsWithVotes` | elle.rb:22 | A non-empty `classement` text ends in `" votes"`, so it has no trailing newline. |
| `Elle.ClassementLineAt` | elle.rb:21-22 | Line i begins with the rank i + 1, `". #"` and the i-th ranked raw `blog_id`. It ends with `" - "`, the i-th raw `votes` string and `" votes"`. Its `to_i` is i + 1. |
| `Elle.LineParts` | elle.rb:22 | A line splits into rank, `". #"`, raw `blog_id`, `" - "`, raw `votes` and `" votes"`. Its `to_i` is the rank. |
| `Elle.FirstMatch` | elle.rb:31-37 | Either gives the position of a ranked entry whose `blog_id.to_i` is `id` with no such entry before it, or says that no ranked entry has that id. |
| `Elle.Blog` | elle.rb:29-38 | If the ranking has a first entry with `blog_id.to_i == id` at position p, the result is that entry's line with rank p + 1. Otherwise the result is the ranked array itself. |
| `Elle.BlogFindsFetchedId` | elle.rb:32-37 | For any ranking of the fetched list, `blog` finds a line (there is a first match) if and only if some fetched entry's `blog_id.to_i` is `id`. |
| `Elle.MatchAt` | elle.rb:33-35 | A matching entry with no match before it is the first match, and some fetched entry matches. |
| `Elle.NoMatch` | elle.rb:32-37 | When no ranked entry matches, there is no first match and no fetched entry matches. |
| `Elle.BlogAgreesWithClassement` | elle.rb:20-38 | Take an entry at position p < 10 that is the first of the ranking with its `blog_id.to_i`. `blog` finds it at p, and line p of `classement` is the same text as the line `blog` returns. |

## Left out

- The HTTP request and client setup (`include HTTParty`, `base_uri`, `default_params`, `format :json`, `get`, `parsed_response`) are left out: they are network I/O and JSON parsing by an external library. The parsed vote list is an input.
- The response cache (`HTTParty::Icebox`, configured at `elle.rb:8`) is not part of this model: its store, key and staleness logic live in a gem outside the repository. The same holds for `httparty_icebox_memcached.rb`, a thin wrapper over an external memcached client. The test harness `httparty_icebox_test.rb` is also not modelled.
- `Elle.test` is left out: it only reads the `votes` field of the first fetched entry.
- The `puts` calls at the end of `elle.rb` are console output and are left out.
- Each call of `classement` and `blog` fetches the list anew, and two fetches may differ. The model gives each call its list as a parameter.
- `GetClassement`: fixes one order among entries with equal vote counts (stable insertion). Ruby's unstable sort leaves that order open. The lemmas about the output are stated for any ranking instead.
- Entries are pairs of strings. JSON values of other types (numbers, `nil`, missing keys) and their implicit `to_s`/`to_i` conversions are not modelled.
- `Blog`: takes an integer `id`. `Integer#==` defers to the other operand's own `==` when that operand is not an `Integer`, so any `id` equal to an integer (`54.0`, `54r`, `BigDecimal("54")`, `Complex(54, 0)`) behaves as that integer, which the `int` parameter covers. A non-integral number, a string or `nil` never matches, and `blog` then returns the ranked array; that case is not modelled.
