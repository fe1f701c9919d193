# aria2-xunlei-blocker, modelled in Dafny

`peer_inspect_ban_ipset.py` is a single scan of aria2's active BitTorrent
downloads. For every peer of every active download it does three things:

1. It decodes the peer id that aria2 reports percent-encoded (letters and digits literal, every other byte as `%XX`).
2. It tags the client software from the decoded id.
3. It decides about the peer:
   - Xunlei peers (`-XL…`) are banned directly.
   - Seeders and peers downloading below `DL_MIN` are skipped.
   - Every other peer gets a leech score, `(1 - ul/(dl+1)) * log2(dl+1)`, and is banned when the score reaches `SCORE_BAN`.

Each ban calls `ipset add xunlei_blacklist <ip> timeout 86400 -exist`, unless
`DRY_RUN` is set.

The model has four modules, one per part of that pipeline:

- `PeerId` (`peer_id.dfy`): `decode_peer_id`. This is Python's
  `unquote_to_bytes` read left to right, followed by an ASCII decoding that
  replaces bytes of 128 or more with U+FFFD. It also has a second,
  independent definition of the unquoting that follows the library's own
  algorithm (split the text at every `%`, then fix up each piece), and a
  proof that the two definitions agree on every input.
- `ClientTag` (`client_tag.dfy`): `parse_client_tag`. Its three rules are
  tried in order.
- `LeechScore` (`leech_score.dfy`): the constants `DL_MIN = 50 * 1024`,
  `SCORE_BAN = 6.0` and `BAN_TIMEOUT = 86400`, the peer record, the outcome
  of one peer visit, and the per-peer decision.
  - `math.log2` becomes a parameter `log2: real -> real`.
  - Results that need facts about the logarithm require them explicitly.
    `NonNegativeFromOne` says `log2(x) >= 0` for `x >= 1`. `IsLog2` says
    `log2(1) = 0`, `log2(2x) = log2(x) + 1`, and that `log2` is monotone.
- `Scan` (`scan.dfy`): the two nested loops of `main`, as the method
  `Sweep`.
  - The answers of `aria2.tellActive` and `aria2.getPeers` are its input.
  - It returns the decision taken on every peer visit.
  - It also returns the `ipset_add` calls, recorded in order. There are
    none in dry-run mode.

Speeds are exact naturals, and the ratio and score are exact reals.

Two behaviours of the code worth noting:

- A peer with equal download and upload speeds (1 000 000 B/s each) has a
  ratio just under 1. Its score is `log2(1 000 001) / 1 000 001`, which is
  slightly positive, not slightly negative. It is still far below
  `SCORE_BAN`; `EvenTraderIsNotBanned` proves both facts.
- A failed `aria2.getPeers` call is not skipped: the code has no
  per-transfer recovery, and any RPC exception ends `main`. The model takes
  the RPC answers as input, so it has no such path.

## Model

| member | source | states |
|---|---|---|
| PeerId.Unquote | peer_inspect_ban_ipset.py:61 | `unquote_to_bytes`: every output byte comes from one input character or from one three-character `%XX` escape, so the byte count is between a third of the text length and the full length |
| PeerId.UnquoteMatchesSplit | peer_inspect_ban_ipset.py:61 | the left-to-right unquoting equals the library's split-at-`%` algorithm on every ASCII input, including a `%` not followed by two hex digits, which stays a literal `%` |
| PeerId.Encode | peer_inspect_ban_ipset.py:58 | percent-encoding raw bytes, leaving literal only bytes the caller allows (ASCII and not `%`) and escaping the rest as `%XX`, gives ASCII text between one and three times as long as the bytes |
| PeerId.UnquoteEncode | peer_inspect_ban_ipset.py:58-61 | for every byte sequence and every choice of literal bytes (aria2's: letters and digits), unquoting the encoding gives back exactly those bytes, which is the doc comment's "converts it back" |
| PeerId.UnquotePlain | peer_inspect_ban_ipset.py:61 | text without `%` unquotes to its own characters' bytes |
| PeerId.DecodeAscii | peer_inspect_ban_ipset.py:62 | `decode("ascii", errors="replace")` never fails and yields one character per byte: a byte below 128 becomes the same code point, any other byte becomes U+FFFD |
| PeerId.DecodeAsciiBytes | peer_inspect_ban_ipset.py:62 | decoding the bytes of ASCII text gives that text back |
| PeerId.DecodePeerId | peer_inspect_ban_ipset.py:54-62 | `decode_peer_id` is total, and its result has exactly one character per decoded byte, never more than the raw id's length |
| PeerId.DecodePeerIdOfEncoded | peer_inspect_ban_ipset.py:54-62 | an encoded peer id, whichever bytes were left literal, decodes to its raw bytes read as ASCII |
| PeerId.DecodePeerIdPlain | peer_inspect_ban_ipset.py:54-62 | a peer id with no `%` in it is its own decoding |
| ClientTag.ParseClientTag | peer_inspect_ban_ipset.py:65-80 | the tag is "XL" exactly when the id starts with `-XL`, whatever follows; otherwise an id of length at least 8 with `-` first and a digit at index 3 gives the 6-character window `id[1..7]`; any other id gives "UNK" |
| ClientTag.DocExamples | peer_inspect_ban_ipset.py:69-78 | the doc comment's examples: `-XLxxxx-` gives XL, `-qB4670-` gives qB4670, `-TR4040-` gives TR4040; `-XL1abcd-` has the conventional shape yet gives XL (the prefix rule wins); the empty id, used for a missing peerId, gives UNK |
| ClientTag.TagOfEncodedId | peer_inspect_ban_ipset.py:54-78 | for an encoded peer id, whichever bytes were left literal, the tag is XL exactly when the raw bytes begin with 45, 88, 76 (`-XL`) |
| ClientTag.XunleiAsReported | peer_inspect_ban_ipset.py:54-78 | the raw id `-XL0000-` as aria2 reports it begins `%2DXL` and is tagged XL |
| LeechScore.Ratio | peer_inspect_ban_ipset.py:124 | `ul / (dl + 1)` is defined for every speed, is non-negative, times `dl + 1` gives back `ul`, and is at least 1 exactly when `ul >= dl + 1` |
| LeechScore.SeederField | peer_inspect_ban_ipset.py:108 | only the exact string "true" in the seeder field makes a seeder: a missing field, "false", "True" or "1" does not |
| LeechScore.DecodedId | peer_inspect_ban_ipset.py:110 | a missing peerId decodes as the empty id; a present one decodes to no more characters than it has |
| LeechScore.Score | peer_inspect_ban_ipset.py:125 | the score times `dl + 1` is `(dl + 1 - ul) * log2(dl + 1)`; with no upload the score is `log2(dl + 1)`, and with `ul = dl + 1` it is 0 |
| LeechScore.Decide | peer_inspect_ban_ipset.py:104-138 | a visit is a direct ban exactly when the decoded id starts with `-XL`, whatever the seeder flag and speeds; it is skipped exactly when it is not XL and the seeder field is the string "true" or `dl < DL_MIN`; otherwise it is scored with `dl >= DL_MIN`, a non-XL tag, `ratio * (dl + 1) = ul`, the score `(1 - ratio) * log2(dl + 1)`, and a ban exactly when the score is at least `SCORE_BAN` |
| LeechScore.ScoreNonPositive | peer_inspect_ban_ipset.py:124-125 | when `ul >= dl + 1` (ratio at least 1), the score is at most 0 for any `log2` that is non-negative from 1 up |
| LeechScore.RatioAtLeastOneNeverScoreBanned | peer_inspect_ban_ipset.py:114-138 | a peer with ratio at least 1 is blocked exactly when it is an Xunlei peer, so the score path never bans it |
| LeechScore.FullLeechIsBanned | peer_inspect_ban_ipset.py:124-135 | for 1 000 000 B/s down and 0 up, the score is `log2(1 000 001)`, which is at least 19 and so reaches the ban threshold |
| LeechScore.EvenTraderIsNotBanned | peer_inspect_ban_ipset.py:124-135 | for 1 000 000 B/s down and up, the score is strictly between 0 and `SCORE_BAN`: no ban |
| LeechScore.LowUploadIsBanned | peer_inspect_ban_ipset.py:124-135 | for 100 000 B/s down and 1 000 up, the score is at least 15: a ban |
| Scan.Reports | peer_inspect_ban_ipset.py:100-111 | one decision per peer visit |
| Scan.ReportsAt | peer_inspect_ban_ipset.py:100-111 | the k-th decision is the one about the k-th visit, with that visit's address |
| Scan.BlockCalls | peer_inspect_ban_ipset.py:100-138 | at most one block call per peer visit, each with the timeout `BAN_TIMEOUT` |
| Scan.Sweep | peer_inspect_ban_ipset.py:100-138 | the nested transfer/peer loop returns the decision of every visit, transfer by transfer and peer by peer, the same with and without dry run; its block calls are exactly `BlockCalls` of all visits, or none in dry-run mode |
| Scan.VisitStep | peer_inspect_ban_ipset.py:104-138 | one more visit appends its decision, and appends its block call exactly when the decision bans |
| Scan.BlockCallsAppend | peer_inspect_ban_ipset.py:100-104 | the block calls of consecutive runs of visits are concatenated in order, so calls follow transfer-then-peer order |
| Scan.BlockedIff | peer_inspect_ban_ipset.py:114-138 | an address receives a block call exactly when some visit with that address is a direct ban or a score ban |
| Scan.VisitEffect | peer_inspect_ban_ipset.py:114-122 | visiting a non-XL seeder or slow peer adds no block call, whatever its upload speed; visiting an XL peer adds exactly one |
| Scan.TwoTransferScenario | peer_inspect_ban_ipset.py:100-138 | two transfers, an XL peer (`-XL0000-…`) and a qBittorrent peer (`-qB4690-…`, 100 000 B/s down, 1 000 up): the first is a direct ban, the second is scored with tag qB4690 and banned, and the block calls are the two addresses in that order |

## Left out

- `rpc` (lines 39-51): the HTTP JSON-RPC transport, its token, its 5-second timeout and `raise_for_status`. The model takes the transfers and their peers as input.
- `ipset_add` (lines 83-91): the `ipset` process itself. A block call is recorded with its address and `BAN_TIMEOUT`. The expiry of entries and the `-exist` refresh happen inside `ipset` and are not modelled.
- All console output (lines 95, 115, 127-136, 140), including the formatting of report lines and the timestamps.
- `int(...)` parsing of the speed fields (lines 106-107): speeds arrive as naturals. A malformed speed string raises in the code, and the model has no such path.
- `math.log2` and floating-point division: ratio and score are exact reals, and `log2` is a parameter. The examples assume only `IsLog2`, and the ratio rule assumes only `NonNegativeFromOne`. Rounding near the threshold is not modelled.
- PeerId.DecodePeerId: the raw `peerId` is restricted to ASCII text. The code would UTF-8-encode other characters before unquoting, which the model does not capture. aria2 leaves ASCII letters and digits literal and escapes every other byte, so the field it reports is ASCII text.
- Python's Unicode `str.isdigit`: after decoding, every character is ASCII or U+FFFD, so the test against `'0'..'9'` is exact.
- The `ip` field is taken as a string. A missing `ip` (None) makes the report print at line 115 or 128 raise for a banned or scored peer, ending `main`; only a skipped peer passes silently. The model has no such path.
- Error handling: any RPC exception ends `main`. With the RPC outside the model, there is no failure path in `Sweep`.
