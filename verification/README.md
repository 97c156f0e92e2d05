# Facets: subset-coverage counter

The program reads base sets A_1, ..., A_n ⊆ {0, ..., 63}, one comma-separated
line per set. For each k it prints how many k-element sets X are a subset of
at least one A_i. Stored as 64-bit masks, each base set comes with a *jump
sequence*: the chain of prefix unions of its elements, in the order they were
listed. `Compute_numbers` walks every subset of A_i with a successor step that
acts as a binary increment. It counts a subset by its size unless an earlier
base set already contains it. `Write_output` prints the histogram up to its
first zero entry.

The model is split into these modules:

- **Masks** (`masks.dfy`): a mask is the set of its bit positions (`set<nat>`).
  - `&` is `*`, `|` is `+`, `^` is `Xor` and `1ULL << x` is `{x}`.
  - It also holds the input conditions the program assumes but never checks:
    elements are distinct and below 64, and there are at most 1000 lines.
- **BitVectors** and **Bits** (`bitvectors.dfy`, `bits.dfy`): the bridge from
  real `bv64` words to those sets.
  - Each bit operation the program uses is the matching set operation.
  - The two `==` tests the program makes on masks are subset tests.
- **Jumps** (`jumps.dfy`): the loop in `Read_input` that builds a base-set mask
  and its jump sequence (`BuildBase`, `Load`), plus the shape of the jump
  sequence.
- **Ranks** (`ranks.dfy`): the binary-counter reading of a subset. Digit k is 1
  when the k-th listed element is present. `Unrank` is its inverse.
- **Coverage** (`coverage.dfy`): the specification.
  - `CoverCount(bases, k)` is the number of k-element sets covered by some
    base set.
  - Its consequences: it is order independent, entry 0 is 1, the support is a
    prefix, and a single base set gives a binomial row.
- **Counter** (`counter.dfy`): `Compute_numbers` as loops.
  - The containment scan (`Contained`).
  - The successor step (`Successor`).
  - The walk over one base set (`CountBase`).
  - The outer loop (`ComputeNumbers`).
  - The walk visits every subset of A_i exactly once: `Visited` grows by one
    subset per step.
- **Tokens** (`tokens.dfy`): `First_element`'s splitting at the first comma and
  the loop that drains a line with it.
- **Output** (`output.dfy`): `Write_output`'s stop-at-first-zero rule.
- **Example** (`example.dfy`): the worked example from the header comment.
- **Facets** (`facets.dfy`): read, compute and write chained together, minus
  the files and the console.

## Model

| member | source | states |
|---|---|---|
| Jumps.BuildBase | Source.cpp:87-95 | OR-ing the listed elements in order yields the base set; the recorded masks are the prefix unions of the listing |
| Jumps.Load | Source.cpp:85-97 | every line becomes its mask and its jump sequence, in input order |
| Jumps.PrefixesChain | Source.cpp:43-53 | the jump sequence is a chain under inclusion |
| Jumps.PrefixesStep | Source.cpp:48-53 | each entry adds exactly the next listed element to the one before; with distinct elements that element is new |
| Jumps.PrefixesEnds | Source.cpp:48-53 | the first entry is the first element alone, the last entry is the whole base set, and with distinct elements entry k has k+1 elements |
| Jumps.PrefixContained | Source.cpp:132-136 | entry k lies inside x exactly when the first k+1 listed elements are all in x, which is what the successor search tests |
| Masks.ListingFitsRow | Source.cpp:57-58 | a line of distinct positions below 64 has at most 64 elements, so its jump sequence fits in one 64-entry row |
| Masks.PrefixDistinct | Source.cpp:139 | a prefix of a distinct listing has as many elements as entries, which the size update relies on |
| Ranks.UnrankRank | Source.cpp:116-118 | every subset of the base set is recovered from its binary reading |
| Ranks.RankUnrank | Source.cpp:116-118 | every number below 2^m is the binary reading of some subset, for distinct listings; together with RankInjective, of exactly one |
| Ranks.RankInjective | Source.cpp:116-118 | different subsets have different binary readings |
| Ranks.RankEmpty | Source.cpp:122 | the walk starts at 0: the empty set reads as 0 |
| Ranks.RankFull | Source.cpp:124 | the walk ends at the whole base set, which reads as 2^m - 1 |
| Ranks.RankIncrement | Source.cpp:136-138 | removing the leading run of present elements and adding the first absent one adds exactly 1 to the binary reading |
| Counter.Contained | Source.cpp:125-130 | the scan answers true exactly when one of the first i base sets contains x |
| Counter.Successor | Source.cpp:132-139 | the search stops inside the jump sequence at the first absent element; the step removes the present prefix and adds that element; the result stays inside the base set, the size update keeps `size` equal to the number of elements of `subset`, and the binary reading goes up by one |
| Counter.SuccessorStep | Source.cpp:136-139 | xor with the entry the search stopped at is the binary increment and changes the size by 1 - index |
| Counter.StepEffect | Source.cpp:138-139 | the xor removes exactly entry index-1, all of which is present, and adds the one absent element of entry index |
| Counter.XorAddsOne | Source.cpp:138 | xor with a part of x plus one outside element removes the part and adds the element |
| Counter.OrUnchanged | Source.cpp:136 | the or-test `a OR b == a` of the successor search holds exactly when b lies inside a |
| Counter.AndUnchanged | Source.cpp:127 | `(a & b) == a` holds exactly when a lies inside b |
| Counter.VisitedStep | Source.cpp:122-140 | each step of the walk adds exactly the current subset to those visited, and it had not been visited before |
| Counter.VisitedEnds | Source.cpp:122-124 | the walk starts with nothing visited, and past the last rank every subset of the base set has been visited |
| Counter.WalkComplete | Source.cpp:141-148 | the post-loop case counts the whole base set, the one subset the loop has not visited, completing the subsets |
| Counter.FreshAdd | Source.cpp:131 | visiting one new subset adds one to entry k exactly when it is uncovered by earlier base sets and has k elements |
| Counter.CountBase | Source.cpp:121-148 | processing base set i adds to entry k the number of its k-element subsets that no earlier base set contains |
| Counter.ComputeNumbers | Source.cpp:119-150 | entry k of the histogram is the number of k-element sets covered by at least one base set |
| Coverage.CoverCountStep | Source.cpp:115-118 | adding base set i adds exactly its subsets that no earlier base set contains |
| Coverage.OfSizeAddFresh | Source.cpp:115-118 | growing the covered family by a new base set adds, at size k, exactly that base set's fresh k-subsets |
| Coverage.RedundantBaseAddsNothing | Source.cpp:126-130 | a base set contained in an earlier one contributes nothing |
| Coverage.EmptySetCountedOnce | Source.cpp:6-8 | with at least one base set, entry 0 is 1 |
| Coverage.NoBaseSets | Source.cpp:59 | with no base set every entry is 0 |
| Coverage.CoverCountAboveLargest | Source.cpp:6-8 | entries above the largest base-set size are 0 |
| Coverage.CoverCountPositive | Source.cpp:6-8 | every size up to some base set's size has a nonzero entry |
| Coverage.SupportIsPrefix | Source.cpp:107-108 | entry k is nonzero exactly when some base set has at least k elements |
| Coverage.CoverCountOrderIndependent | Source.cpp:6-8 | reordering the base sets does not change the histogram |
| Coverage.SubsetOfSize | Source.cpp:6-8 | helper of SupportIsPrefix: a set of at least k elements has a k-element subset |
| Coverage.PowersetOfSizeCard | Source.cpp:6-8 | a set of m elements has C(m, k) subsets of size k |
| Coverage.PascalStep | Source.cpp:6-8 | helper of PowersetOfSizeCard and SingleBaseIsBinomial: the k-subsets of a split into those without e and those with e |
| Coverage.AddElementCard | Source.cpp:6-8 | helper of PascalStep: adding an element that no member contains keeps members distinct |
| Coverage.SingleBaseIsBinomial | Source.cpp:6-8 | a single base set of m elements gives the binomial row C(m, k) |
| Tokens.FindComma | Source.cpp:65-70 | the position of the first comma, or the length when there is none |
| Tokens.FirstElement | Source.cpp:63-72 | the element is the comma-free text before the first comma and the rest is what follows that comma; with no comma the element is the whole line and the rest is empty |
| Tokens.FirstCommaUnique | Source.cpp:63-72 | cutting at the first comma is the only split around a comma with no comma in front |
| Tokens.SplitLine | Source.cpp:89-90 | the drain loop takes at most one element per character, and no element contains a comma |
| Tokens.JoinSplitLine | Source.cpp:89-90 | writing the elements back with commas restores any line that does not end in a comma |
| Tokens.SplitLineJoin | Source.cpp:89-90 | comma-free elements whose last one is nonempty are read back exactly |
| Output.Emitted | Source.cpp:107-110 | the written entries are a prefix of the histogram, all nonzero, followed by a zero entry or the end |
| Output.NothingDropped | Source.cpp:107-110 | for a computed histogram exactly the nonzero entries are written |
| Example.WorkedExample | Source.cpp:18-34 | for {1,3,5,6}, {2,4,5,16,20}, {0,2,5} the histogram is 1, 9, 18, 15, 6, 1 and then zeros |
| Example.WorkedExampleOutput | Source.cpp:26-32 | the output file of the worked example holds exactly 1, 9, 18, 15, 6, 1 |
| Example.ThreeBases | Source.cpp:18-34 | for three base sets the histogram is given by inclusion and exclusion over binomial rows |
| Example.InclusionExclusion3 | Source.cpp:18-34 | helper of ThreeBases: inclusion and exclusion for three finite sets |
| Facets.Run | Source.cpp:156-163 | the written numbers are the covered-set counts for k = 0, 1, ..., stopping exactly at the first size nothing covers |
| Bits.AndIsIntersection | Source.cpp:127 | bitwise and of masks is intersection of their members |
| Bits.OrIsUnion | Source.cpp:91 | bitwise or of masks is union of their members |
| Bits.XorIsSymmetricDifference | Source.cpp:138 | bitwise xor of masks is symmetric difference of their members |
| Bits.ShiftIsSingleton | Source.cpp:91 | `1ULL << x` for x below 64 has exactly the member x |
| Bits.ZeroIsEmpty | Source.cpp:87 | the mask 0 has no members |
| Bits.EqualIffSameMembers | Source.cpp:124 | two masks are equal exactly when they have the same members |
| Bits.AndTestIsSubset | Source.cpp:127 | the test `(x & s) == x` holds exactly when x's members lie inside s |
| Bits.OrTestIsSubset | Source.cpp:136 | the or-test of the successor search (the or of subset and j equals subset) holds exactly when j's members lie inside subset |
| BitVectors.EqualFromBits | Source.cpp:124 | 64-bit words that agree on every bit are equal |
| BitVectors.LowestBit | Source.cpp:124 | a nonzero word has a set bit below position 64 |

## Left out

- File handling and the console are not modelled. This covers opening, reading
  and closing the files, the prompts, `std::cin` and `main`'s messages
  (Source.cpp:81-86, 98-99, 104-106, 111-112, 152-173). `Facets.Run` stands
  for the successful path of `main`. `Write_output`'s `file <<` becomes the
  returned sequence.
- The `std::stringstream >> int` conversion in `First_element`
  (Source.cpp:73-76) is not modelled: it is a library call. `SplitLine` stops at
  the element's text, and the lines reach the counter already as lists of
  numbers. Non-numeric tokens are therefore outside the model.
- Behaviour the program leaves undefined is excluded by `requires`
  (`ValidInput`, `ValidListing`), because the code never checks it. This
  covers `1ULL << x` for x < 0 or x ≥ 64, duplicate elements on a line, more than 64
  elements in a row and more than 1000 lines. With a duplicate element the
  update `size -= index - 1` can stop tracking the true size, when a new
  element follows a repeated one: for the line 1,1,2 the step from {1} stops
  at index 2 and gives {2} with size 0. The error reports
  one could add for these are not part of the program, so none are modelled.
- Counter overflow of the `int` entries of `numbers_of_subsets` is not
  modelled: the counts are unbounded `nat`s. Entry k counts distinct k-element
  sets of positions below 64, so it never exceeds C(64, k), and the running
  counts only grow towards it. A single base set of 34 elements already
  overflows a 32-bit entry, since C(34, 17) = 2,333,606,220. The model
  describes the program only while every final count fits.
- The masks in `Counter` and `Jumps` are sets of positions, not `bv64` words.
  `Bits` proves that the bit operations the program applies match the set
  operations used there, including the two equality tests.
- The performance notes (Source.cpp:10-16) and the static-array layout are not
  modelled: the arrays are sequences passed between the operations.
- An empty input line is handled by the code as the empty base set. `set` and
  `subset` are both 0, so the walk is skipped and only the empty set is
  counted, if no earlier set covers it. The model follows the code. Empty
  listings are valid input, and `ComputeNumbers` covers them with no special
  case.
