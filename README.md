# Implicit-feedback movie recommender: verified model of its discrete core

This project models, in Dafny, the exact, discrete parts of a MovieLens movie
recommender. The recommender factorises the user-item rating matrix by
weighted alternating least squares (WALS, after Hu, Koren and Volinsky,
"Collaborative filtering for implicit feedback datasets", 2008). It then
recommends the K best-scoring items to a user. Scores, factors, preferences
and confidences are `real`. Ratings and timestamps of the input records are
`int`.

- `data_input.dfy` (module `DataInput`) builds the 943 x 1682 rating matrix
  from (user, item, rating, timestamp) records. Two tables, `ratings` and
  `times`, are updated in place. When ratings are nonzero, each cell keeps
  only its most recent rating; a cell holding a zero rating is overwritten by
  any later record, whatever its timestamp (`ZeroRatingOverwritten`).
  `CellAfter` specifies one cell as a fold over the records that
  target it. The loop is proved to compute that fold for every cell. The
  lemmas then characterise the fold: an untouched cell stays 0, and
  "most recent wins".
- `mat_fac_implicit.dfy` (module `MatFacImplicit`) covers three things:
  - the confidence matrix C = 1 + 40·R;
  - the preference matrix P, the 0/1 indicator of R ≠ 0;
  - the assembly of each row's normal equations in one ALS half-step.
  The nested loop that fills Yᵗ(Cu − I)Y is proved to compute it, and the
  result is symmetric. The assembled matrix YᵗY + Yᵗ(Cu − I)Y + reg·I is
  proved equal to the paper's YᵗCuY + reg·I. The matrix inversion is a
  parameter of the half-step, so the model stops at the linear system.
- `recommendation.dfy` (module `Recommendation`) covers scoring, masking of
  seen items with the score −1, ranking by a reversed argsort, and the
  (1-based id, title) result list. The ranking is proved to be a top-K
  selection: distinct valid ids, non-increasing scores, and every returned
  item scores at least as high as every item left out. This holds for any
  order an argsort may give among equal scores.
- `wrappers.dfy` and `matrices.dfy` hold `Option`/`Result` and the matrix
  shape predicate.

Where the intended behaviour and the code disagree, the model follows the
code:
- Ties among equal scores: the intended order is ascending item index. The code
  reads `np.argsort` backwards, and that call uses the default sort, which is
  not stable. So the model leaves the order among ties open (`IsArgSort`).
- K larger than the number of items: the intended result is all N items.
  The code raises IndexError in the result loop. `Recommend` returns
  `Failure(IndexOutOfRange)`.
- Result shape: the intended result is (0-based index, score) pairs. The code
  returns (index + 1, title) pairs, and the model does too.
- Negative ratings: the intended behaviour is to reject them. The code never checks
  for them, so no such error is modelled.
- The sentinel: −1 is meant to lie below every valid score. The code does
  not guarantee this, because factors can be negative. The exclusion lemmas
  therefore assume that every predicted score is above −1.
  `ColumnDotNonNegative` proves this for non-negative factors.

## Model

| member | source | states |
|---|---|---|
| `Recommendation.Predict` | recommendation.py:18 | the prediction has one entry per item, and entry i is Σ_f u[f]·V[f][i], the product of the user factor with item i's factor column |
| `Recommendation.ColumnDotNonNegative` | recommendation.py:18 | non-negative user and item factors give a non-negative score, so the score lies strictly above the sentinel −1 |
| `Recommendation.Masked` | recommendation.py:21-23 | with include_seen false, every item with a nonzero rating scores exactly −1 and every unrated item keeps its predicted score; with include_seen true, no score changes |
| `Recommendation.MaskSeen` | recommendation.py:23 | the in-place overwrite leaves the buffer equal to the masked scores of its old contents |
| `Recommendation.MaskedPreference` | recommendation.py:18-23 | the score buffer holds the predicted scores, masked unless seen items are included |
| `Recommendation.TopIds` | recommendation.py:26 | the reversed slice `[-1:-K-1:-1]` has min(K, N) entries, and entry j is the j-th entry from the end of the order |
| `Recommendation.ArgSort` | recommendation.py:26 | the result is a permutation of the item indices (in range, distinct, covering) in non-decreasing score order |
| `Recommendation.InsertMembers` | recommendation.py:26 | the indices of an insertion are exactly those of the list plus the inserted index |
| `Recommendation.InsertSorted` | recommendation.py:26 | inserting an index into a list sorted by score keeps it sorted by score |
| `Recommendation.InsertDistinct` | recommendation.py:26 | inserting an index that is new into a list without repeats gives a list without repeats |
| `Recommendation.ArgSortPrefixMembers` | recommendation.py:26 | sorting the indices below n yields exactly the indices below n |
| `Recommendation.ArgSortPrefixDistinct` | recommendation.py:26 | sorting the indices below n lists each of them once |
| `Recommendation.ArgSortPrefixSorted` | recommendation.py:26 | sorting the indices below n lists them in non-decreasing score order |
| `Recommendation.TopIdsDominate` | recommendation.py:26 | an item left out of the last k entries of any argsort scores no higher than any returned item |
| `Recommendation.TopIdsAreTopK` | recommendation.py:26 | for k ≤ N, the reversed slice of any argsort has exactly k distinct valid indices, in non-increasing score order, dominating every other item |
| `Recommendation.BuildList` | recommendation.py:32-37 | fails exactly when K exceeds the number of ranked ids. Otherwise it returns one (id + 1, title) pair per id among the first max(K, 0), in order |
| `Recommendation.Recommend` | recommendation.py:6-37 | fails exactly when K > N. Otherwise it returns max(K, 0) entries whose ids minus one form a top-K selection of the masked scores. Each id lies in [1, N] and is paired with titles[id − 1] |
| `Recommendation.SeenOnlyAfterAllUnseen` | recommendation.py:21-26 | with masking and all predicted scores above −1, a seen item is returned only if every unseen item is returned too |
| `Recommendation.UnseenFillFirst` | recommendation.py:21-26 | with masking, all predicted scores above −1 and at least K unseen items, every returned item is unseen |
| `Recommendation.SeenItemFillsShortage` | recommendation.py:21-26 | with one seen item and K = 1, the only top-K selection of the masked scores returns the seen item |
| `Recommendation.SeenItemOutranksLowScore` | recommendation.py:21-26 | when an unseen item's predicted score is below −1, the only top-1 selection returns a seen item instead |
| `MatFacImplicit.Confidence` | mat_fac_implicit.py:61-64 | C has R's shape and C[u][i] = 1 + 40·R[u][i] |
| `MatFacImplicit.CalPreference` | mat_fac_implicit.py:73-75 | P has R's shape, P[u,i] = 1 iff R[u][i] ≠ 0, and P[u,i] = 0 iff R[u][i] = 0. Each entry is the indicator of an observed rating that the confidence lemma refers to |
| `MatFacImplicit.ConfidenceOfUnobserved` | mat_fac_implicit.py:61-75 | where the preference is 0 the confidence is exactly 1, and a non-negative rating gives a confidence of at least 1 |
| `MatFacImplicit.WeightedGramBuffer` | mat_fac_implicit.py:111-115 | the nested loop fills cell (r, c) with Σ_k Y[k][r]·(Y[k][c]·w[k]), and the filled f x f matrix is symmetric |
| `MatFacImplicit.GramMatrix` | mat_fac_implicit.py:96 | YᵗY is an f x f matrix whose entry (r, c) is Σ_k Y[k][r]·Y[k][c], and it is symmetric |
| `MatFacImplicit.GramSymmetric` | mat_fac_implicit.py:96 | each entry of YᵗY equals its mirror entry |
| `MatFacImplicit.WeightedGramSymmetric` | mat_fac_implicit.py:111-115 | Yᵗ·diag(w)·Y is symmetric for every weight vector |
| `MatFacImplicit.ConfidenceSplit` | mat_fac_implicit.py:117-118 | YᵗY + Yᵗ(Cu − I)Y = YᵗCuY entry by entry, as the source comment states |
| `MatFacImplicit.SystemMatrixSymmetric` | mat_fac_implicit.py:117-119 | the matrix handed to the inversion, YᵗCuY + reg·I, is symmetric |
| `MatFacImplicit.RightSumIgnoresUnobserved` | mat_fac_implicit.py:121-122 | entry r of Yᵗ(Cu∘Pu) does not depend on the factor rows of items whose preference is 0 |
| `MatFacImplicit.RightVector` | mat_fac_implicit.py:121-122 | the right-hand side has f entries, and entry r is Σ_k Y[k][r]·(Cu[k]·p(u)[k]) |
| `MatFacImplicit.MatVec` | mat_fac_implicit.py:125 | the solution row has f entries, and entry r is the dot product of row r of the inverse with the right-hand side |
| `MatFacImplicit.LeftMatrix` | mat_fac_implicit.py:111-118 | the matrix the code assembles, YᵗY + Yᵗ(Cu − I)Y + reg·I, equals the paper's YᵗCuY + reg·I |
| `MatFacImplicit.AlternateLS` | mat_fac_implicit.py:77-131 | fails exactly when some row's system YᵗCuY + reg·I is singular, and then names the first such row. Otherwise the output has u_num rows and F columns, and row u is the solution (YᵗCuY + reg·I)⁻¹·YᵗCu·p(u) |
| `DataInput.Merge` | data_input.py:36-39 | the cell becomes either itself or the record's (rating, time). A cell with rating 0 always takes the record. A cell with a nonzero rating ends with the later of its time and the record's |
| `DataInput.ApplyRecord` | data_input.py:30-39 | the record is skipped iff its cell holds a nonzero rating with a strictly later time. Otherwise both cells take the record's rating and time. No other cell of either table changes |
| `DataInput.MergeRecords` | data_input.py:27-39 | after the loop, every cell equals the fold, in input order, of the records that target it, starting from its old content |
| `DataInput.GetUserItemMat` | data_input.py:17-42 | the result is a 943 x 1682 matrix whose cell (u, i) is the rating left by folding all records for (u, i) over all-zero tables |
| `DataInput.UntouchedCellKeepsStart` | data_input.py:21-39 | a cell no record targets keeps its initial content (0 in the rating matrix) |
| `DataInput.ZeroRatingOverwritten` | data_input.py:36-39 | a record rated 0 at time 100 followed by a record rated 4 at time 50 leaves the cell at (4, 50): the skip test protects only nonzero ratings |
| `DataInput.LatestMaximumKept` | data_input.py:27-39 | with nonzero ratings, a targeted cell ends holding the rating and time of a record of that cell. That record has the maximum timestamp among the cell's records, and no later record of the cell reaches it |
| `DataInput.MostRecentWins` | data_input.py:36-39 | with nonzero ratings, the cell ends with the rating and time of the last record attaining the maximum timestamp. With equal timestamps the later record wins |

## Left out

- Reading `ml-100k/u.data` and `ml-100k/u.item`, `get_mat` and `get_item_titles` are file I/O. The records and the titles are parameters.
- Writing the factor matrices with `to_csv`, and every `print`, are I/O.
- `factor_mat`'s outer loop is left out. Its random initialisation (`np.random.rand`) and its floating-point iteration have no exact postcondition beyond shape.
- `np.linalg.inv` is a foreign floating-point routine. `AlternateLS` takes it as the parameter `inv`, where `None` stands for LinAlgError on a singular matrix. Nothing is proved about the values it returns.
- Floating-point rounding is not modelled; all arithmetic is over `real`.
- `matrix_factorization.py` (gradient descent with a float error threshold) is not part of this model.
- `main.py` (the factor cache check and the usage example) is not part of this model.
- Loss monotonicity and reconstruction accuracy are floating-point convergence claims and are not modelled.
- DataInput.GetUserItemMat: requires ids in 1..943 and 1..1682. numpy's negative-index wrap-around for id 0, and IndexError for larger ids, are not modelled.
- Recommendation.Recommend: for negative K the source's slice takes other entries, but the result loop never reads them. The model uses an empty slice, and both return [].
- Recommendation.Recommend: the source raises IndexError after appending N entries. The model returns `Failure` without the partial list, which the caller never sees either.
- MatFacImplicit.AlternateLS: does not state in its postcondition that each row is written exactly once. The loop invariant only keeps rows not yet reached at 0.
- MatFacImplicit.CalPreference: returns the preference matrix as an array. `AlternateLS` takes P and C as matrix values, because the code that joins them (`factor_mat`) is left out.
- Recommendation.UnseenFillFirst: "recommend only unseen items" (include_seen false) holds only when every predicted score is above −1 and at least K items are unseen. The code does not check either condition. When fewer than K items are unseen, it fills the list with seen items (`SeenItemFillsShortage`). A score at or below −1 can rank an unseen item below a seen one (`SeenItemOutranksLowScore`).
- Recommendation.SeenOnlyAfterAllUnseen: holds only when every predicted score is above −1. With non-negative factors that holds (`ColumnDotNonNegative`); otherwise a seen item can be returned ahead of an unseen one (`SeenItemOutranksLowScore`).
