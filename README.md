# ensembl_lite annotation and homology core, in Dafny

This project models two components of `ensembl_lite` and proves properties of the model.

**1. The genome annotation store** (`src/ensembl_lite/_genomedb.py`):

- Stable ids are tidied: a type prefix such as `Gene:` is lower-cased.
- `EnsemblGffRecord` is modelled together with `update_from_attrs`. That method reads the name, the parent and the biotype out of the GFF3 attribute text.
- `custom_gff_parser`'s merge loop is modelled. It folds lines that share a name into one record, widens start and stop, and numbers anonymous lines `unknown-N` from a counter the caller threads through.
- `make_gene_relationships` is modelled. It links CDS to mRNA to gene and copies the canonical marker onto a CDS.
- The `EnsemblGffDb` store is modelled, with its tables held in memory:
  - the biotype table and its cache;
  - `add_feature`, `add_records` and `subset`;
  - the de-duplicating queries `get_feature_children` and `get_feature_parent`.
- The `str2arr` / `arr2str` byte codec of sequences is modelled.

**2. Homology clustering and the homology store** (`src/ensembl_lite/_homologydb.py`):

- `homolog_group` and its union.
- The single-pass clustering `grouped_related`.
- The combination `merge_grouped` of two clusterings, with its helpers `_gene_id_to_group` and `_add_unique`.
- The `HomologyDb` store, with its relationship-type cache. Its operations are `add_records`, `get_related_to` and `get_related_groups`.
- The `load_homologies` species filter and its row-to-triple step.

How the Python maps to Dafny:

- **In-place state becomes classes.** Records, the two databases and the `:memory:` tables are classes whose methods say, with `modifies`, what they change.
- **Loops become methods.** Each method is proved against a function that specifies it, and lemmas prove the promised properties about that function.
- **Tables become values.** SQL tables are sequences, maps and sets, and autoincrement ids count up from 1.
- **Unordered results become choices.** SQL row order and Python set iteration order are not determined by the code. Most methods that read them take an arbitrary order (a `:|` choice or an order parameter), and their contracts hold for every order. Two reads are fixed to id order instead; "## Left out" names them.
- **Object identity becomes an index.** A `homolog_group` hashes by the identity of its gene set, so clustering keeps an arena of groups and works with indices into it.

Modules, one per file:

| file | module | models |
|---|---|---|
| `outcomes.dfy` | `Outcomes` | `Option` and `Result` |
| `dicts.dfy` | `Dicts` | insertion-ordered Python dicts |
| `gff_text.dfy` | `GffText` | `tidy_gff3_stableids`, the `ID=`/`exon_id=`/`Parent=` searches, `in`, `split` |
| `gff_record.dfy` | `GffRecord` | `EnsemblGffRecord` |
| `gff_parse.dfy` | `GffParse` | `custom_gff_parser` |
| `gene_relations.dfy` | `GeneRelations` | `make_gene_relationships` |
| `gff_store.dfy` | `GffStore` | the feature, biotype and edge tables as values |
| `gff_queries.dfy` | `GffQueries` | the `subset` selection and the child/parent queries |
| `gff_db.dfy` | `GffDb` | class `EnsemblGffDb` |
| `seq_codec.dfy` | `SeqCodec` | `str2arr`, `arr2str`, `bytes.maketrans` |
| `homolog_groups.dfy` | `HomologGroups` | `homolog_group`, `grouped_related` |
| `homolog_merge.dfy` | `HomologMerge` | `_gene_id_to_group`, `_add_unique`, `merge_grouped` |
| `homology_store.dfy` | `HomologyStore` | class `HomologyDb` and its tables as values |
| `homology_load.dfy` | `HomologyLoad` | `load_homologies` |

## Model

| member | source | states |
|---|---|---|
| Dicts.Put | src/ensembl_lite/_genomedb.py:130-132 | `d[k] = v` on an insertion-ordered dict: the new key goes to the end; an existing key keeps its place and takes the new value |
| GffText.TidyStableIdsSpec | src/ensembl_lite/_genomedb.py:43-57 | tidying keeps the length; it lower-cases exactly the characters inside a word-initial `[a-z]+:` prefix (case-insensitive) and leaves every other character as it was |
| GffText.TidyStableIdsIdempotent | src/ensembl_lite/_genomedb.py:51-57 | tidying twice equals tidying once |
| GffText.StripTypedPrefix | src/ensembl_lite/_genomedb.py:76-78 | `stableid` of `prefix:id` is `id` when `id` has no `:` |
| GffText.SearchSpec | src/ensembl_lite/_genomedb.py:46-48 | a lookbehind search for `KEY=` returns nothing iff no word-boundary `KEY=` has a non-empty value; otherwise it returns the leftmost such value, which is non-empty, free of `;`, and runs to the next `;` or the end |
| GffText.Contains | src/ensembl_lite/_genomedb.py:81-83 | `sub in s` holds iff `sub` occurs at some position of `s` |
| GffText.FirstField | src/ensembl_lite/_genomedb.py:98-102 | `s.split(sep)[0]` is the prefix of `s` before its first `sep`, or all of `s` when there is none |
| GffRecord.SpanSizeOne | src/ensembl_lite/_genomedb.py:108-111 | a single segment has size `abs(start - stop)` |
| GffRecord.SpanSizeAppend | src/ensembl_lite/_genomedb.py:108-111 | `size` of a concatenation is the sum of the sizes, so with `SpanSizeOne` it is the sum of the segment lengths |
| GffRecord.NameFromAttrsSpec | src/ensembl_lite/_genomedb.py:92-96 | the name becomes the leftmost non-empty `ID=` value of the tidied attributes (`exon_id=` when the raw text has no `ID=`), up to `;`; the old name stays when there is no such value |
| GffRecord.ParentFromAttrsSpec | src/ensembl_lite/_genomedb.py:98-102 | the parent becomes the first comma-separated item of the leftmost `Parent=` value; the old parent stays when there is none |
| GffRecord.BiotypeFromName | src/ensembl_lite/_genomedb.py:104-106 | a name with `:` sets the biotype to the text before the first `:`, except that `transcript` becomes `mrna`; without `:` the biotype is unchanged |
| GffRecord.EnsemblGffRecord.constructor | src/ensembl_lite/_genomedb.py:63-68 | an `is_canonical` flag puts `Ensembl_canonical;` in front of the attributes, after which the record is canonical; it has no feature id yet |
| GffRecord.EnsemblGffRecord.UpdateFromAttrs | src/ensembl_lite/_genomedb.py:85-106 | the record's new value is the attribute update of its old value; the feature id is untouched |
| GffParse.NatToStringInjective | src/ensembl_lite/_genomedb.py:127 | different counter values print as different decimal strings |
| GffParse.SyntheticNameInjective | src/ensembl_lite/_genomedb.py:126-128 | `unknown-N` names made from different counters differ |
| GffParse.MinMaxAttained | src/ensembl_lite/_genomedb.py:135-136 | the widened start is the start of one of the merged lines, and the widened stop the stop of one |
| GffParse.ParseCounter | src/ensembl_lite/_genomedb.py:126-128 | the returned counter is the incoming one plus the number of anonymous lines |
| GffParse.CounterThreading | src/ensembl_lite/_genomedb.py:114-138 | parsing two files in turn, the second starting from the counter the first returned, ends at the counter of parsing both together |
| GffParse.AnonymousLineName | src/ensembl_lite/_genomedb.py:126-128 | the j-th anonymous line is named `unknown-(num_fake_ids + j)` |
| GffParse.AnonymousNamesDistinct | src/ensembl_lite/_genomedb.py:126-128 | two different anonymous lines get different names |
| GffParse.ParseKeys | src/ensembl_lite/_genomedb.py:130-132 | there is one stored record per distinct resolved name, and no other |
| GffParse.ParseRecord | src/ensembl_lite/_genomedb.py:130-136 | the record stored under a name keeps the first such line's fields; its spans are that line's own spans followed by `[start, stop]` of every line of that name, in input order; its start and stop are the least and greatest of those lines' coordinates |
| GffParse.RepeatedLine | src/ensembl_lite/_genomedb.py:130-136 | re-reading a stored line appends one duplicate span to its record; it adds no record and leaves the counter, the key order and every other record unchanged |
| GffParse.CustomGffParser | src/ensembl_lite/_genomedb.py:114-138 | the loop over fresh records returns a dict that holds the parse of the updated lines, and the counter that parse ends at |
| GeneRelations.BucketedLast | src/ensembl_lite/_genomedb.py:478-481 | every record is filed under its lower-cased biotype and its name; a later record with the same pair replaces an earlier one; nothing else is filed |
| GeneRelations.FoldOk | src/ensembl_lite/_genomedb.py:485-492 | the CDS loop runs to the end iff every CDS's parent is in the mRNA bucket and that mRNA's parent is in the gene bucket |
| GeneRelations.FoldMarked | src/ensembl_lite/_genomedb.py:486-490 | only CDS records whose mRNA is canonical take the marker; after a full run, all of them have it |
| GeneRelations.FoldSlots | src/ensembl_lite/_genomedb.py:492-495 | after a full run, the keys are exactly the genes of the CDS records; a gene's set holds its last CDS and that CDS's mRNA; when no gene's stripped name is itself a gene name, the lookup misses and the set is only that pair |
| GeneRelations.GeneRelationsOutcome | src/ensembl_lite/_genomedb.py:477-495 | both loops run to the end iff a `cds` bucket exists and every CDS in it resolves to an mRNA and a gene; the marked records are those CDS whose mRNA is canonical |
| GeneRelations.MarkedIsCanonical | src/ensembl_lite/_genomedb.py:80-83 | a record with `Ensembl_canonical;` in front of its attributes is canonical |
| GeneRelations.MarkCanonical | src/ensembl_lite/_genomedb.py:487-490 | a CDS under a canonical mRNA gets the marker and joins the marked set |
| GeneRelations.MakeGeneRelationships | src/ensembl_lite/_genomedb.py:473-497 | success iff both loops run to the end, and then the result is `RelationsOf` the loop's gene dict; on a `KeyError` the changes made so far remain; each record ends marked iff the loop marked it |
| GffStore.MinCoord | src/ensembl_lite/_genomedb.py:281 | `spans.min()` is at most every coordinate and equals one of them |
| GffStore.MaxCoord | src/ensembl_lite/_genomedb.py:282 | `spans.max()` is at least every coordinate and equals one of them |
| GffStore.FilledSpec | src/ensembl_lite/_genomedb.py:280-282 | filling fails (numpy raises) iff the spans are empty and start or stop is 0; it replaces only a zero start or stop, with the least or greatest coordinate of the spans |
| GffStore.InternSpec | src/ensembl_lite/_genomedb.py:257-261 | the returned biotype id names a row holding that exact string; a string already seen keeps its id and leaves the store unchanged; a new string takes the next id; cached entries never change |
| GffStore.SameBiotypeSameId | src/ensembl_lite/_genomedb.py:257-261 | two stored features share a biotype id iff their biotype texts are equal |
| GffStore.InsertSpec | src/ensembl_lite/_genomedb.py:269-288 | a stored record fails iff it cannot be filled; otherwise it takes the next id, reads back through the `gff` view as its filled self, and every earlier row is kept |
| GffStore.InsertFilled | src/ensembl_lite/_genomedb.py:280-288 | storing a record that is already filled writes the same row as storing the record it was filled from |
| GffStore.InsertAllSpec | src/ensembl_lite/_genomedb.py:296-297 | the feature loop fails iff some record cannot be filled; on success record k is stored as its filled self under id `n + k + 1`, and earlier rows and the edges are kept |
| GffStore.LinkSpec | src/ensembl_lite/_genomedb.py:300-310 | the relation loop raises iff some gene or child has no id; otherwise it adds exactly one edge per (gene, child) pair; edges are only ever added |
| GffQueries.MatchingIdsSpec | src/ensembl_lite/_genomedb.py:448-454 | the selected ids are exactly the ids of the rows the filter keeps, each once, in increasing order |
| GffQueries.CanonicalSelected | src/ensembl_lite/_genomedb.py:448-453 | the selected ids reach a canonical row iff some row the filter keeps is canonical |
| GffQueries.RecreatedStored | src/ensembl_lite/_genomedb.py:448-454 | a record rebuilt from a non-canonical view row needs no filling, and once stored it reads back as that row, with its name's prefix stripped again and its new id |
| GffQueries.RebuiltStored | src/ensembl_lite/_genomedb.py:448-469 | storing the rebuilt records of non-canonical selected rows in an empty store cannot fail; row k reads back as the k-th selected row, renumbered |
| GffQueries.AddRelatedSpec | src/ensembl_lite/_genomedb.py:463-467 | `related[gene].add(child)` keeps every entry already there and enters the gene and the child |
| GffQueries.RelatedSkip | src/ensembl_lite/_genomedb.py:458-462 | an edge with an end that was not selected leaves `related` unchanged |
| GffQueries.RelatedEdges | src/ensembl_lite/_genomedb.py:456-469 | once every edge is read, the edges `related` names are the edges of the source between two selected rows, renumbered by place, up to names |
| GffQueries.SubsetEdgesExact | src/ensembl_lite/_genomedb.py:456-469 | when the selected records have pairwise different names, the subset's edges are exactly the source edges whose two ends were both selected, renumbered |
| GffQueries.ResultsValues | src/ensembl_lite/_genomedb.py:368-375 | once every matching row is read, `list(results.values())` is the query result keyed by name |
| GffQueries.QueryResultExact | src/ensembl_lite/_genomedb.py:361-390 | when every feature has its own name, the rows returned are exactly the other ends of the edges that match `name`, one per name |
| GffDb.SelectedIds | src/ensembl_lite/_genomedb.py:448-454 | the ids the first loop of `subset` selects name rows of the store, in increasing order |
| GffDb.NewRecords | src/ensembl_lite/_genomedb.py:448-454 | `EnsemblGffRecord(**r)` over the returned rows raises `TypeError` iff some row is canonical; otherwise it gives distinct fresh records, without ids, each holding its row's columns |
| GffDb.NewRecord | src/ensembl_lite/_genomedb.py:63-68 | a view row has no attribute text, so the constructor raises `TypeError` (`"Ensembl_canonical;" + None`) iff the row is canonical; otherwise it gives a fresh record without an id holding the row's columns |
| GffDb.SubsetTables | src/ensembl_lite/_genomedb.py:439-469 | the store `subset` builds has the selected rows renumbered in order, and its edges are those named by `related` |
| GffDb.RelationsLinked | src/ensembl_lite/_genomedb.py:300-310 | once every rebuilt record carries the id of its place, no gene or child lacks an id, and the relation loop inserts exactly the edges of `related` |
| GffDb.MatchingRecords | src/ensembl_lite/_genomedb.py:445-454 | the first loop of `subset`: the selected ids, in id order, and a fresh rebuilt record for each; it raises `TypeError` iff some selected row is canonical |
| GffDb.RelatedOf | src/ensembl_lite/_genomedb.py:456-467 | the second loop of `subset`, over the edges in any order, gathers `related` for exactly the edges with both ends selected |
| GffDb.QueryRows | src/ensembl_lite/_genomedb.py:367-375 | reading the matching rows, in any order, into a dict keyed by name gives the query result |
| GffDb.EnsemblGffDb.constructor | src/ensembl_lite/_genomedb.py:182-193 | a new store has empty tables and an empty biotype cache |
| GffDb.EnsemblGffDb.GetBiotypeId | src/ensembl_lite/_genomedb.py:257-261 | the cached `INSERT OR IGNORE` is biotype interning on the store's tables |
| GffDb.EnsemblGffDb.FillCoordinates | src/ensembl_lite/_genomedb.py:280-282 | `start or spans.min()` and `stop or spans.max()`; false where numpy raises, and then the record is unchanged |
| GffDb.EnsemblGffDb.StoreFilled | src/ensembl_lite/_genomedb.py:283-288 | the row goes in under the next id, which is written back into the record |
| GffDb.EnsemblGffDb.AddFeature | src/ensembl_lite/_genomedb.py:269-288 | `add_feature` fails iff the record cannot be filled, leaving the store and record unchanged; otherwise the store is that of `Insert`, the record becomes its filled self, and its `feature_id` is the new id |
| GffDb.EnsemblGffDb.AddAll | src/ensembl_lite/_genomedb.py:296-297 | the feature loop stores the records in order; on success every record is filled and carries a distinct fresh id naming its own row |
| GffDb.EnsemblGffDb.LinkRelations | src/ensembl_lite/_genomedb.py:300-310 | the relation loop adds the edges of `Link` and fails iff `Link` reports a missing id |
| GffDb.EnsemblGffDb.AddRecords | src/ensembl_lite/_genomedb.py:290-310 | `add_records` first stores the records as `InsertAll` does; if some record cannot be filled it fails with the edges unchanged, otherwise it adds the edges of `Link` (one per (gene, child) pair) and raises `ValueError` iff some gene or child has no id |
| GffDb.EnsemblGffDb.Subset | src/ensembl_lite/_genomedb.py:419-470 | `subset` raises `TypeError` iff it selects a canonical row; otherwise it returns a fresh, valid store: empty for an empty store, otherwise holding the selected rows renumbered and the edges between selected rows |
| GffDb.EnsemblGffDb.GetFeatureChildren | src/ensembl_lite/_genomedb.py:361-375 | one child row per name, each the child end of an edge whose parent is named `name` and whose columns pass the `**kwargs` conditions |
| GffDb.EnsemblGffDb.GetFeatureParent | src/ensembl_lite/_genomedb.py:377-390 | one parent row per name, each the parent end of an edge whose child is named `name`; its `**kwargs` are ignored, as in the source |
| SeqCodec.FillSpec | src/ensembl_lite/_genomedb.py:609-612 | in the table, `from[i]` maps to `to[i]` for the last place `i` of that byte; every byte of `from` maps into `to`; every other byte maps to itself |
| SeqCodec.IndexTextLengthExact | src/ensembl_lite/_genomedb.py:611 | the UTF-8 text of `chr(0) … chr(n-1)` has one byte per index iff `n <= 128` |
| SeqCodec.SliceToPrefix | src/ensembl_lite/_genomedb.py:615-616 | `data[:max_length]` is a prefix of `data`, of length `min(max_length, len(data))` for a positive limit and `len(data) + max_length` (at least 0) for a negative one; slicing again to the same non-negative limit changes nothing |
| SeqCodec.NewStr2Arr | src/ensembl_lite/_genomedb.py:604-612 | building `str2arr` succeeds iff the alphabet has at most 128 symbols; the table sends symbols to indices |
| SeqCodec.NewArr2Str | src/ensembl_lite/_genomedb.py:626-634 | building `arr2str` succeeds iff the alphabet has at most 128 symbols; the table sends indices to symbols |
| SeqCodec.EncodeSymbol | src/ensembl_lite/_genomedb.py:609-612 | `str2arr` sends a symbol to an index whose symbol it is, and leaves bytes outside the alphabet unchanged |
| SeqCodec.DecodeIndex | src/ensembl_lite/_genomedb.py:631-634 | `arr2str` sends each index below the alphabet size to the symbol at that index |
| SeqCodec.EncodeBound | src/ensembl_lite/_genomedb.py:614-619 | every byte encoded from a text over the alphabet is below the alphabet size |
| SeqCodec.RoundTrip | src/ensembl_lite/_genomedb.py:600-641 | `arr2str(str2arr(s)) == s` over the alphabet; with a `max_length` on `str2arr` the result is the truncated text |
| SeqCodec.RoundTripLimited | src/ensembl_lite/_genomedb.py:600-641 | with the same `max_length` on both sides, the round trip still gives the truncated text |
| HomologGroups.Union | src/ensembl_lite/_homologydb.py:86-93 | `g1 \| g2` raises `ValueError` iff the labels differ; otherwise it gives a group with that label holding exactly the genes of both |
| HomologGroups.UnionLaws | src/ensembl_lite/_homologydb.py:70-93 | under `__eq__`, union is commutative and idempotent, and it fails the same way in either order |
| HomologGroups.GroupedRelated | src/ensembl_lite/_homologydb.py:99-140 | the two loops compute the specification `Reduce(Fold(data))` |
| HomologGroups.GroupTriple | src/ensembl_lite/_homologydb.py:121-134 | one turn of the first loop is one `Step` of the specification |
| HomologGroups.ReduceGroups | src/ensembl_lite/_homologydb.py:136-138 | the second loop, over the types in any order, gives `Reduce` |
| HomologGroups.GroupedKeys | src/ensembl_lite/_homologydb.py:120-140 | the result has exactly one key per relationship type of the input |
| HomologGroups.GroupedGenes | src/ensembl_lite/_homologydb.py:120-140 | every group under a type carries that type, and the genes of that type's groups are exactly the genes of that type's triples |
| HomologGroups.ChainScenario | src/ensembl_lite/_homologydb.py:124-133 | (g1,g2) then (g2,g3) give the single group {g1,g2,g3} |
| HomologGroups.BridgeScenario | src/ensembl_lite/_homologydb.py:124-133 | (a,b), (c,d), (b,c) give the overlapping groups {a,b,c} and {c,d} |
| HomologGroups.TwoApart | src/ensembl_lite/_homologydb.py:124-133 | two triples with no gene in common make two groups, each gene pointing at its own |
| HomologMerge.GeneToGroup | src/ensembl_lite/_homologydb.py:143-148 | every gene of the series maps to the position of a group that holds it |
| HomologMerge.GeneToGroupKeys | src/ensembl_lite/_homologydb.py:143-148 | the genes mapped are exactly the genes of the series |
| HomologMerge.GeneIdToGroup | src/ensembl_lite/_homologydb.py:143-148 | the loop computes `GeneToGroup` |
| HomologMerge.AddUnique | src/ensembl_lite/_homologydb.py:151-158 | the genes of `a` missing from `b` are added, each pointing at its group in `a`; every other key keeps its value |
| HomologMerge.VisitShared | src/ensembl_lite/_homologydb.py:184-191 | the loop over the shared ids, in some enumeration of the set, computes `MergeRun` |
| HomologMerge.MergeType | src/ensembl_lite/_homologydb.py:172-193 | for a type both inputs hold, the merge is `MergeTypeWith` for the visiting order used, which enumerates the shared ids |
| HomologMerge.CollectCovers | src/ensembl_lite/_homologydb.py:193 | every mapped gene lies in an output group |
| HomologMerge.CollectWithin | src/ensembl_lite/_homologydb.py:193 | no output group holds a gene that is in neither input |
| HomologMerge.MergeGenes | src/ensembl_lite/_homologydb.py:172-193 | in any visiting order, the output groups hold exactly the genes of both inputs |
| HomologMerge.MergeLabelled | src/ensembl_lite/_homologydb.py:189 | when every input group carries label `r`, no union fails in any order, and every output group carries `r` |
| HomologMerge.MergeApart | src/ensembl_lite/_homologydb.py:172-193 | with no shared gene and disjoint groups on each side, the output is exactly the groups of both inputs |
| HomologMerge.GroupedWellLabelled | src/ensembl_lite/_homologydb.py:130-138 | `grouped_related` labels every group with its key, so merging two of its results never fails |
| HomologMerge.MergedKeys | src/ensembl_lite/_homologydb.py:165-169 | after every type is visited, the output has exactly the types of both inputs; a one-sided type is passed through unchanged |
| HomologMerge.MergeGrouped | src/ensembl_lite/_homologydb.py:161-196 | on success the output has the union of the types, passes one-sided types through, and merges the others; it fails only where a union of differently labelled groups fails, never for well-labelled inputs |
| HomologMerge.MergeOrderMatters | src/ensembl_lite/_homologydb.py:184-193 | with {a,b},{c,d} against {b,c}, visiting b first gives {c,d},{a,b,c} and visiting c first gives {a,b},{b,c,d}: not transitive, and dependent on set order |
| HomologyStore.InternSpec | src/ensembl_lite/_homologydb.py:243-249 | the relationship id names a row of that type; ids already handed out are unchanged; a cached type leaves the tables as they were |
| HomologyStore.InternTwice | src/ensembl_lite/_homologydb.py:243-249 | the same type string always maps to the same relationship id |
| HomologyStore.PlaceSpec | src/ensembl_lite/_homologydb.py:299-303 | placing a group keeps the tables valid, stores all its genes under `h` of the type, and keeps every row |
| HomologyStore.PlaceDuplicate | src/ensembl_lite/_homologydb.py:294-303 | `INSERT OR IGNORE`: a group whose genes are already under `h` leaves the tables unchanged |
| HomologyStore.RelatedGroupsSpec | src/ensembl_lite/_homologydb.py:327-343 | a group is listed iff it is the non-empty member set of some homology id of the type |
| HomologyStore.RelatedGroupsCover | src/ensembl_lite/_homologydb.py:327-343 | every gene stored under a homology id of the type is in a listed group |
| HomologyStore.TypeOfId | src/ensembl_lite/_homologydb.py:233-240 | the `related_groups` join gives a homology id the type `rel` iff its relationship is the cached id of `rel` |
| HomologyStore.PlaceApart | src/ensembl_lite/_homologydb.py:295-303 | disjoint groups of a type the store does not hold each get a fresh id |
| HomologyStore.AddThenList | src/ensembl_lite/_homologydb.py:273-343 | `add_records` of non-empty, pairwise disjoint groups of a new type, then `get_related_groups`, gives back exactly those groups in order |
| HomologyStore.AddThenFind | src/ensembl_lite/_homologydb.py:273-325 | after `add_records`, each group lies wholly within its homology id, of the given type, so `get_related_to` finds it |
| HomologyStore.HomologyDb.constructor | src/ensembl_lite/_homologydb.py:222-226 | a new store has empty tables and an empty cache |
| HomologyStore.HomologyDb.MakeRelationshipTypeId | src/ensembl_lite/_homologydb.py:243-249 | the new tables and the id are those of interning the type |
| HomologyStore.HomologyDb.GetHomologyGroupId | src/ensembl_lite/_homologydb.py:251-271 | the id is an existing homology id of the type holding one of the genes, or else a new row with the next id |
| HomologyStore.HomologyDb.AddGroup | src/ensembl_lite/_homologydb.py:299-303 | one turn of `add_records`: the tables become `Place` of the chosen id |
| HomologyStore.HomologyDb.AddGroups | src/ensembl_lite/_homologydb.py:295-303 | the loop places the groups in order and stops at the first one with another label |
| HomologyStore.HomologyDb.AddRecords | src/ensembl_lite/_homologydb.py:273-304 | `add_records` places every group under an id chosen as `_get_homology_group_id` does; it raises `ValueError` iff some group has another label, after placing the groups before it |
| HomologyStore.HomologyDb.GetRelatedTo | src/ensembl_lite/_homologydb.py:306-325 | `()` iff no homology id of the type holds the gene; otherwise exactly the members of one such id, the gene among them |
| HomologyStore.HomologyDb.GetRelatedGroups | src/ensembl_lite/_homologydb.py:327-343 | the listing is `RelatedGroups` of the tables, in homology id order |
| HomologyLoad.MatchingSpecies | src/ensembl_lite/_homologydb.py:389-390 | a row is kept iff both its species and its homology species are allowed |
| HomologyLoad.KeptSpec | src/ensembl_lite/_homologydb.py:385-390 | a row passes the filter iff it is an input row with both species allowed |
| HomologyLoad.TriplesTypes | src/ensembl_lite/_homologydb.py:396 | the types of the triples are the types of the rows |
| HomologyLoad.TriplesGenes | src/ensembl_lite/_homologydb.py:396 | the genes of type `r` of the triples are the genes of the rows of type `r` |
| HomologyLoad.LoadHomologies | src/ensembl_lite/_homologydb.py:392-396 | fails iff the header differs from `src_cols`; otherwise the result is `grouped_related` of the kept rows' triples |
| HomologyLoad.LoadedSpec | src/ensembl_lite/_homologydb.py:366-396 | one key per type of an allowed row; every group carries its key; a gene is in a group of a type iff an allowed row of that type names it |

## Left out

- I/O and backends are not modelled:
  - the SQLite connection, the SQL text, views and `COLLATE` rules, `make_indexes`, `num_records`, `__len__` and `biotype_counts`;
  - opening an existing database file, so every store and cache starts empty;
  - HDF5 sequence storage, the FTP download, `make_annotation_db`, and the cogent3 parsers (`gff_parser`, `is_gff3`, `iter_splitlines`, the tab-separated `FilteringParser`);
  - the moltype alphabet source, which is a parameter here.
- The feature filter of `subset` and `get_features_matching`, `_select_records_sql`, lives outside this repository and is a parameter predicate here.
- GffDb.EnsemblGffDb.GetFeatureChildren: its `**kwargs` conditions are a parameter predicate on the returned row. That row also carries the feature id, which the `parent_to_child` view does not have, so the predicate is more general than the SQL conditions.
- `get_features_matching` and `get_records_matching` only pass that filter's rows through, and are not modelled on their own.
- Python `None` for a name, parent id, attribute text or `max_length` is modelled as `""` or `0`. Both are falsy wherever the code tests them. The one place where `None` behaves differently is the constructor call in `subset`: the `gff` view has no attribute column, so for a canonical row `"Ensembl_canonical;" + None` raises `TypeError`. The model reports that error (`GffDb.NewRecord`).
- Regular-expression word boundaries and `[a-z]` with `IGNORECASE` are modelled on ASCII letters, digits and `_`.
- Unicode is left out:
  - text is a sequence of characters with no normalisation;
  - `str2arr`/`arr2str` work on bytes, and UTF-8 encoding and decoding are not modelled;
  - an alphabet of more than 128 symbols, whose index text UTF-8 would widen, is modelled as the `ValueError` `maketrans` raises.
- SQL row order and Python set iteration order are left open:
  - `_get_homology_group_id` picks any matching id;
  - `get_related_to` lists the members in any order;
  - `merge_grouped` visits the shared ids in any enumeration.
- Two SQL reads are fixed to increasing id order, although their queries have no `ORDER BY`:
  - GffDb.MatchingRecords: the first loop of `subset` reads the `gff` view in id order. That order decides the new ids and, when names repeat, which record keys `related`.
  - HomologyStore.HomologyDb.GetRelatedGroups: the groups are listed in homology id order. The "in order" of `HomologyStore.AddThenList` rests on this.
- The dicts that `grouped_related` and `merge_grouped` return are modelled as maps, so the order of their keys is not modelled.
- Python set order of `tuple(set(...))` is not modelled:
  - `grouped_related` lists a type's groups in order of creation;
  - `merge_grouped` lists the first input's groups, then the second's, then the unions. Which groups are listed is exact; their order is not.
- `GROUP_CONCAT(...)` followed by `split(",")` is modelled as the member set; this holds only for gene ids without a comma.
- `get_related_groups` lists only non-empty groups. An empty group makes a homology row with no members, and the `related_groups` join drops such a row.
- HomologyStore.HomologyDb.AddRecords: the `ValueError` leaves the earlier groups in the tables. No commit or rollback is modelled.
- numpy is not modelled: `numpy.array`, `min` and `max` over spans are sequence minimum and maximum, and the returned `uint8` array is a byte sequence.
- The `feature_id` column of `subset`'s rows is dropped, and other columns are rebuilt from the `gff` view. The rebuilt records therefore have no attribute text, and a selected canonical row makes `subset` raise `TypeError` (`GffDb.EnsemblGffDb.Subset`).
- A record's `source`, `score`, `phase` and `comments` fields, which `add_feature` stores, are not modelled (`GffRecord.RecordValue` has no such fields). None of the three views reads them back.
- Behaviour that differs from the repository's own description:
  - The biotype cache is case-sensitive. `functools.cache` is keyed on the exact string, while the column's `NOCASE` collation has no uniqueness constraint. The model follows the code: `Gene` and `gene` get different biotype ids.
  - `merge_grouped` is neither transitive nor associative, and its result depends on set order (`HomologMerge.MergeOrderMatters`).
  - `get_related_to` returns the queried gene as well.
  - `make_gene_relationships` looks a gene up by its stripped `stableid`, while the dict is keyed by the full name. Each gene therefore keeps only its last CDS and that CDS's mRNA (`GeneRelations.FoldSlots`).
- `homolog_group.__post_init__` replaces a missing gene set with an empty one. The model's groups always hold a set, so the missing case does not arise.
- `__hash__` of records and groups is modelled by object identity and record names where the code relies on it. Hashing itself is not modelled.
