# Payment codes and custody ledger: a Dafny model

This project models the two parts of the payment system where money can go wrong, and proves what they
promise.

**Payment codes.** A payment request is printed as an EMVCo merchant-presented payload (nested
tag-length-value fields closed by a CRC-16), scanned back by the API, previewed by a second parser in the
dashboard, and turned into a transfer of micro-USDC. Strings are byte strings, as in Go.

| module | models |
|---|---|
| `Bytes`, `Numerals`, `Decimals` | byte strings, base-10 integers, the decimal library as coefficient and exponent with its reader and printer |
| `Polynomials`, `Crc` | polynomials over GF(2), the 16-bit checksum register |
| `Tlv`, `QrCodec`, `QrRoundTrip` | fields, the builder and the parser of payment codes, and what relates them |
| `Preview` | the dashboard's parser |
| `JsNumbers`, `Doubles` | the script's reading of numbers, rounding to a double, two decimals |
| `Amounts`, `Payments` | amount parsing, the generate and transfer handlers |

**Custody ledger.** Calls of the USDC contract leave logs in blocks; the protocol service maps and filters
them; the indexer walks the heights and publishes; the consumer debits and credits an in-memory ledger that
started from a snapshot of the contract.

| module | models |
|---|---|
| `Token`, `Chain` | the contract, transactions, receipts, blocks |
| `Events` | log mapping, address service, filtering, idempotency ids |
| `Indexing` | the tick loop as a step machine and as the service object that performs its steps |
| `Ledger` | the locked balance map, the consumer, the snapshot |
| `Custody` | all of it as one step system whose runs interleave freely |
| `Fees` | the fee cap against EIP-1559 |

An object whose methods update its fields in the source is a class here; each method is proved equal to a
function of the old state, and the results below are about those functions and hold for all inputs and runs.

Assumptions, all visible as parameters, step guards or `requires` clauses:

- The channel between indexer and consumer delivers every message once and in order, within one lifetime of
  both. The chain does not reorganise. The address service answers and its set does not change.
- The zero address is not custodied. In conservation, senders are not the zero address. No other contract
  logs under the USDC address.
- A tip answer is the height of an existing block (it may repeat or fall) and is below 2^64 - 1. A starting
  block of zero means "not started": it is replaced by the tip on each tick until it is non-zero.
- No assumption is made about when the snapshot was taken. `Custody.LedgerDrift` states the error a wrong
  height causes, so the usual assumption (snapshot at the starting block) is the condition of
  `Custody.LedgerMirrorsChain`.
- The dashboard script is modelled on ASCII text, where JavaScript lengths count bytes.
- Addresses and hashes are numbers of 160 and 256 bits standing for their fixed-width text. The two event
  topics are the Keccak-256 constants of the event signatures.

Where the code and its comments differ, the code is followed: the comment of `GetBalance` in the custody
service speaks of querying the broadcaster, while the body reads the ledger.

Some promises fail outside a range; then the exact range is proved. A code is
not read back when a length needs three digits (`QrRoundTrip.RoundTripExact`, with an open range stated below;
`QrRoundTrip.LongMemoIsMisread`), a negative length makes the parser slice out of range
(`QrRoundTrip.PanicsExactly`), the preview can differ from the API when a template stops at an unreadable length
(`Preview.PreviewAgreesExactly`), the amount shown can differ for very large amounts and odd numerals
(`Payments.ShownAmount`), a log that is no ERC-20 transfer but has its topic stops the indexer for good
(`Events.FetchedExactly`, `Custody.NoRunPasses`), and the fee cap misses the fifth full block for base fees below 5 wei
(`Fees.CapCoversFiveBlocks`).

## Model

| member | source | states |
|---|---|---|
| Crc.CalculateCrc16 | services/custody/api/qr.go:22-37 | The two nested loops compute the printed register of the whole string. |
| Crc.ChecksumExactly | services/custody/api/qr.go:22-37 | Four characters are the checksum of n bytes if and only if they are upper-case hexadecimal digits denoting the remainder of (x^15+...+1)·x^(8n) + M(x)·x^16 by x^16+x^12+x^5+1. |
| Crc.CheckValue | services/custody/api/qr.go:22-37 | The published check value: the checksum of 123456789 is 29B1. |
| Crc.RegisterIsRemainder | services/custody/api/qr.go:22-37 | For every start value and string of n bytes the register is the remainder of start·x^(8n) + M(x)·x^16 by x^16+x^12+x^5+1 over GF(2): degree below 16, and the difference is a multiple of the generator. |
| Crc.RemainderIsRegister | services/custody/api/qr.go:22-37 | A 16-bit value is that remainder if and only if it is the register. |
| Polynomials.RemainderIsUnique | services/custody/api/qr.go:22-37 | Long division by the generator leaves one remainder. |
| Polynomials.MultiplesAreWide | services/custody/api/qr.go:22-37 | Every non-zero multiple of the generator has two terms at least 16 exponents apart. |
| Crc.Incremental | services/custody/api/qr.go:26-35 | The register after a concatenation is the register of the second part started from that of the first. |
| Crc.RegisterIsAffine | services/custody/api/qr.go:26-35 | If d is the bitwise exclusive or of three strings of its length, so is its register of theirs. |
| Crc.BurstChangesRegister | services/custody/api/qr.go:26-35 | Two different strings that agree outside 16 consecutive bits have different registers. |
| Crc.HexDenotes | services/custody/api/qr.go:36 | The four printed characters are the register's hexadecimal digits, most significant first. |
| Crc.HexIsInjective | services/custody/api/qr.go:107-110 | Two registers whose text matches the same bytes up to case are equal. |
| Bytes.EqualFoldExactly | services/custody/api/qr.go:107-107 | A word folds to exactly the texts of its length that differ at most in the case of letters, on ASCII text, and on all text when it has no s and no k. |
| Bytes.WideFolds | services/custody/api/handler.go:275-283 | An s also folds to the two bytes of U+017F and a k to the three of U+212A. |
| Tlv.ScanInt | services/custody/api/qr.go:118-122 | Sscanf on two bytes yields -9..99, is 10·d1+d2 on two digits and negative only after a minus sign. |
| Tlv.FormatText | services/custody/api/qr.go:17-20 | A field is printed as tag, two decimal digits of the length, value. |
| Tlv.LexFormat | services/custody/api/qr.go:17-20 | A printed field with a two-byte tag and a value of at most 99 bytes is read back in front of any text. |
| Tlv.ReadBack | services/custody/api/qr.go:112-128 | A printed list of fields is read back exactly if and only if every value has at most 99 bytes. |
| Tlv.LexedFields | services/custody/api/qr.go:112-128 | Whatever the text, every field read has a two-byte tag, fewer than 100 bytes, and fits behind its header. |
| Tlv.OutOfRangeExactly | services/custody/api/qr.go:112-128 | A slice gets a negative length if and only if reading arrives at a header whose length is a minus sign and a digit from 1 to 9. |
| Tlv.NoMinusNoRange | services/custody/api/qr.go:124-127 | Without a minus sign in the text no slice has a negative length. |
| QrCodec.BuildMerchant | services/custody/api/qr.go:49-62 | The parts appended for template 26, omitted when empty, join to the encoding of its field list. |
| QrCodec.BuildEmvCoQrContent | services/custody/api/qr.go:39-95 | The appended parts and the checksum are the encoding of the field list, "6304" and the checksum of all before it. |
| QrCodec.ScanMerchant | services/custody/api/qr.go:131-158 | The index loop over template 26 applies exactly the fields read, and fails like the slice does. |
| QrCodec.ScanAdditional | services/custody/api/qr.go:161-183 | The same for template 62. |
| QrCodec.ParseEmvCoTlv | services/custody/api/qr.go:97-187 | The parser loop gives the interpretation of the list of fields, with every error exit. |
| QrRoundTrip.RoundTrip | services/custody/api/qr.go:39-187 | With a merchant template of at most 99 bytes, parsing the built code returns the request if and only if the amount has at most 99 bytes and the memo at most 95. |
| QrRoundTrip.RoundTripExact | services/custody/api/qr.go:39-187 | With a merchant template below 170 bytes, of 190 to 199, or above 315, parsing the built code returns the request if and only if all three limits hold. |
| QrRoundTrip.LongMerchantIsRejected | services/custody/api/qr.go:63-63 | A merchant template of 100 to 169 bytes makes the parser refuse the built code. |
| QrRoundTrip.NineteenIsNotReadBack | services/custody/api/qr.go:63-63 | A merchant template of 190 to 199 bytes loses its details: the length is read as 19 and they become top-level fields. |
| QrRoundTrip.LongMemoIsMisread | services/custody/api/qr.go:78-95 | A memo of 96 bytes that contains an amount field: the parser accepts the built code and returns that amount, and no memo. |
| QrRoundTrip.LexBuild | services/custody/api/qr.go:39-95 | Within the limits the reader meets exactly the builder's fields and the checksum field. |
| QrRoundTrip.CodeFields | services/custody/api/qr.go:39-95 | Within the limits a reader finds in the code the fields 00 to 63 with the source's constants, the amount, the merchant template with identifier and details, the memo template, and the checksum of all before it. |
| QrRoundTrip.BuildIsInjective | services/custody/api/qr.go:39-95 | Within the limits different requests give different codes. |
| QrRoundTrip.ParsedLengths | services/custody/api/qr.go:112-186 | Any accepted code, whoever wrote it, yields an amount of at most 99 bytes and other details of at most 95. |
| QrRoundTrip.BurstIsRejected | services/custody/api/qr.go:101-110 | Changing an accepted code inside 16 consecutive bits before its last four characters makes the checksum fail. |
| QrRoundTrip.SealedHasChecksum | services/custody/api/qr.go:91-110 | A text with its own checksum appended passes the check. |
| QrRoundTrip.HasChecksumExactly | services/custody/api/qr.go:101-110 | The checksum test ignores the case of letters and nothing else. |
| QrRoundTrip.ParseOutcomes | services/custody/api/qr.go:97-187 | Too short, wrong checksum, rejected for what stopped the reading, and accepted: each exactly in its case. |
| QrRoundTrip.PanicsExactly | services/custody/api/qr.go:97-187 | The parser slices out of range if and only if the checksum is correct and reading the code, or one of its templates 26 and 62, arrives at a header with a negative length. |
| QrRoundTrip.NoMinusNoPanic | services/custody/api/qr.go:124-153 | So a code without a minus sign never makes it do so. |
| QrRoundTrip.MinusCanPanic | services/custody/api/qr.go:120-127 | With one it can: a length of -1. |
| Preview.PreviewTlv | services/custody/api/dashboard.go:984-1039 | On every text on which they end, the script's loops compute the modelled preview, with NaN lengths and with negative lengths that move the index back. |
| Preview.VisitTemplate | services/custody/api/dashboard.go:1001-1031 | The script's inner loops apply the fields they visit. |
| Preview.MinusCanHang | services/custody/api/dashboard.go:988-996 | The script does not end on a length of -4. |
| Preview.ParseIntAgrees | services/custody/api/dashboard.go:995 | On a length of two characters parseInt, with its own rules for blanks, sign and digits, reads what Sscanf reads, and besides a newline before a digit. |
| Preview.VisitThrough | services/custody/api/dashboard.go:984-1039 | In any text the script visits the fields the API reads and then, from where the API stops, some extra ones. |
| Preview.ExtraFields | services/custody/api/dashboard.go:1001-1015 | The extra field at an unreadable length holds all of the text up to that header; there is none at other ends. Lengths of a newline and a digit are apart. |
| Preview.PreviewAgreesExactly | services/custody/api/dashboard.go:984-1039 | For every accepted code, with repeated templates and newlines: the preview shows the API's five details, or nothing when address or amount is empty, if and only if every template ends and, unless there is no amount, no extra value that is the last one for its detail makes an address appear or differs from a detail shown. |
| Preview.PreviewAgreesOnce | services/custody/api/dashboard.go:984-1039 | With each template at most once and no newline length, this is so if and only if there is no amount, or no template stops at an unreadable length behind a kept sub-tag (only the address sub-tag counts while the API finds no address). |
| Preview.PreviewAgrees | services/custody/api/dashboard.go:984-1039 | In particular for an accepted code whose templates have only readable lengths. |
| Preview.UnreadableTemplateDiffers | services/custody/api/dashboard.go:1001-1015 | A code the API accepts without an address and the script shows with one. |
| Preview.NewlineDiffers | services/custody/api/dashboard.go:1006-1006 | A code on which they differ by a length of a newline and a digit. |
| Decimals.StringRoundTrip | services/custody/api/handler.go:188-195 | Printing a decimal of either sign and reading it back gives the same number. |
| Decimals.ReadPlain | services/custody/api/handler.go:113-113 | A numeral of sign, digits and fraction denotes its digits scaled by its places. |
| Decimals.ReadScientific | services/custody/api/handler.go:113-113 | So does one with an exponent. |
| Decimals.StringIsShortest | services/custody/api/handler.go:194-195 | The normal form has no superfluous zero on either side and no point without a fraction. |
| Amounts.AmountIsExact | services/custody/api/handler.go:101-129 | The numeral of n is returned if and only if the text denotes v > 0 with 10^6·v = n. |
| Amounts.RejectionCauses | services/custody/api/handler.go:104-126 | Empty, no numeral, not positive, and too fine are each reported exactly when they are the case. |
| Amounts.TrimExactly | services/custody/api/handler.go:102-102 | Trimming takes white space, by its code points in UTF-8, off both ends and leaves none there. |
| Amounts.BalanceRoundTrip | services/custody/internal/service/custody.go:83-90 | The text shown for a positive balance is read back as that balance; for others it is refused as not positive. |
| Payments.NormalisedReading | services/custody/api/handler.go:188-205 | The amount printed in a generated code denotes exactly the requested number. |
| Payments.GenerateCauses | services/custody/api/handler.go:177-205 | Each refusal of the generate handler has exactly its cause; otherwise a code is generated for a positive amount. |
| Payments.GeneratedIsReadBack | services/custody/api/handler.go:177-205 | A code generated for USDC on ethereum is read back if and only if the normalised amount has at most 99 bytes and the memo at most 95. |
| Payments.SubmitsExactly | services/custody/api/handler.go:247-304 | For every payload and sender a transfer is submitted if and only if both addresses are EVM addresses, the payload is accepted with that recipient and currency, currency and network are USDC and ethereum up to case, and its amount stands for the positive micro-units carried. |
| Payments.RefusalCauses | services/custody/api/handler.go:247-289 | Each refusal of the transfer handler has exactly its cause. |
| Payments.EndToEnd | services/custody/api/handler.go:247-304 | Scanning it submits a transfer to the requested address of n micro-units if and only if n is 10^6 times the requested amount, and refuses it as too fine if and only if there is no such n. |
| Payments.OnlyTheRequested | services/custody/api/handler.go:247-304 | Within the limits, whatever transfer scanning the generated code submits is the requested one. |
| Payments.LongMemoTransfers | services/custody/api/handler.go:247-304 | With one byte more in the memo it need not be: a 96-byte memo on which scanning submits 999 USDC whatever was requested. |
| Payments.PreviewedTransfer | services/custody/api/handler.go:257-304 | For a code that is executed, the script's parser returns the address, currency, network, memo and amount text that the API read, from which the submitted transfer is made, if and only if the preview is truthful. |
| JsNumbers.LibraryFloat | services/custody/api/dashboard.go:1048-1048 | On every text the decimal library reads, also between blanks, parseFloat reads the same number, unless the text starts with a point and a sign: then it reads none. |
| Doubles.DoubleError | services/custody/api/dashboard.go:1048-1048 | The nearest double differs from a number by at most one part in 2^53. |
| Doubles.RoundIsNearest | services/custody/api/dashboard.go:1048-1048 | Rounding gives the nearest integer, of two the even one. |
| Doubles.CentsAreExact | services/custody/api/dashboard.go:1048-1048 | Whatever number x is shown for an amount v, its two decimals are v if and only if v is a whole number of cents and -0.005 <= x - v < 0.005. |
| Payments.ShownAmount | services/custody/api/dashboard.go:1048-1048 | For an executed code the page shows NaN if and only if the amount has a sign behind a leading point. Otherwise, below 45035996273704.96 USDC, it is off by at most half a cent and one part in 2^53, and equal to the submitted amount if and only if that is a whole number of cents. |
| Payments.PageShowsSomething | services/custody/api/dashboard.go:1048-1048 | For every amount the API accepts there is a double, and so a text, that the page shows. |
| Payments.LargeAmountIsMisshown | services/custody/api/dashboard.go:1048-1048 | An amount of 17 nines is submitted as it is and shown as 100000000000000000.00. |
| Payments.SignBehindPointIsMisshown | services/custody/api/dashboard.go:1048-1048 | The amount .+5 is submitted as 50000 micro-units and shown as NaN. |
| Token.Usdc.constructor | services/blockchain/networks/evm/protocol/internal/contracts/usdc.sol:16-18 | Deployment mints the initial supply to the deployer. |
| Token.Usdc.TransferTokens | services/blockchain/networks/evm/protocol/internal/contracts/usdc.sol:20-26 | The whole new storage, or the old one after a revert. |
| Token.Usdc.ApproveSpender | services/blockchain/networks/evm/protocol/internal/contracts/usdc.sol:28-32 | The whole new storage. |
| Token.Usdc.TransferTokensFrom | services/blockchain/networks/evm/protocol/internal/contracts/usdc.sol:34-42 | The whole new storage, or the old one after a revert. |
| Token.Usdc.MintTokens | services/blockchain/networks/evm/protocol/internal/contracts/usdc.sol:44-48 | The whole new storage, or the old one after a revert. |
| Token.RevertCauses | services/blockchain/networks/evm/protocol/internal/contracts/usdc.sol:20-48 | In a valid state each call reverts exactly for the reason its own check names; no checked addition to a balance overflows after it. |
| Token.ReturnedEvent | services/blockchain/networks/evm/protocol/internal/contracts/usdc.sol:20-48 | The event of each call that returns carries the call's own sender, recipient and value. |
| Token.ReturnedBalances | services/blockchain/networks/evm/protocol/internal/contracts/usdc.sol:20-48 | After a call that returns every balance is the old one, plus the value for the recipient, less the value for the account debited. |
| Token.ReturnedAllowances | services/blockchain/networks/evm/protocol/internal/contracts/usdc.sol:20-48 | And every allowance and the supply: set by approve, spent by transferFrom, raised by mint, otherwise as before. |
| Token.ValidPreserved | services/blockchain/networks/evm/protocol/internal/contracts/usdc.sol:8-48 | Every call keeps: balances add up to the supply, the supply fits a word, the zero address allows nothing. |
| Token.EventMatchesBalances | services/blockchain/networks/evm/protocol/internal/contracts/usdc.sol:20-48 | A returning call moves every non-zero balance by what its event says and covers the debit. |
| Token.EventMatchesSupply | services/blockchain/networks/evm/protocol/internal/contracts/usdc.sol:20-48 | The supply changes exactly by events from the zero address. |
| Token.AllowanceIsSpent | services/blockchain/networks/evm/protocol/internal/contracts/usdc.sol:28-42 | Over any calls without a new approval, allowance plus what was spent stays constant. |
| Chain.EventReplay | services/blockchain/networks/evm/protocol/internal/contracts/usdc.sol:20-48 | In every reachable state a non-zero balance is the sum of transfers in less transfers out, with self-transfers, mints, zero values and reverted calls. |
| Chain.Conservation | services/blockchain/networks/evm/protocol/internal/contracts/usdc.sol:8-48 | In every reachable state balances add up to the supply, which fits a word and is the sum of the events from the zero address. |
| Chain.BlockReplay | services/blockchain/networks/evm/protocol/internal/contracts/usdc.sol:20-48 | The moves of one block explain its balance changes, each debit covered at its point. |
| Chain.BlockIsItsCalls | services/blockchain/networks/evm/protocol/internal/contracts/usdc.sol:20-48 | A block changes the contract and emits transfers exactly as the calls of its transactions that do not fail, one after the other. |
| Chain.ChainIsItsCalls | services/blockchain/networks/evm/protocol/internal/contracts/usdc.sol:20-48 | The state after a chain is that of all these calls on empty storage. |
| Chain.ReceiptsTell | services/blockchain/networks/evm/protocol/internal/service/service.go:93-97 | Each transaction has a receipt saying whether it failed, with no logs if so. |
| Chain.EmitLeavesLog | services/blockchain/networks/evm/protocol/internal/service/service.go:98-98 | Every log another contract emits in a transaction that does not fail is in its receipt. |
| Events.GetBlockEvents | services/blockchain/networks/evm/protocol/internal/service/service.go:71-120 | The receipt and log loops give the relevant mapped events, or the first failure, also of the receipt call and of the header call for an empty block. |
| Events.MapReceiptLogs | services/blockchain/networks/evm/protocol/internal/service/service.go:98-106 | The inner loop appends the mapped logs of one receipt. |
| Events.MapUsdcLog | services/blockchain/networks/evm/protocol/internal/service/erc20.go:29-62 | The log of a USDC transfer maps to an event that reports this transfer; an approval is ignored. |
| Events.MapTransferLog | services/blockchain/networks/evm/protocol/internal/service/erc20.go:36-62 | A Transfer log of any token maps to an event with its contract, transaction, sender, recipient and value. |
| Events.MapWideLog | services/blockchain/networks/evm/protocol/internal/service/erc20.go:50-51 | Topics count by their low 160 bits, data by its first word. |
| Events.OtherLogsAreIgnored | services/blockchain/networks/evm/protocol/internal/service/erc20.go:29-34 | Logs are ignored exactly when they have another first topic. |
| Events.MapBlock | services/blockchain/networks/evm/protocol/internal/service/service.go:91-107 | The events mapped from a block's receipts report exactly its USDC moves, in order. |
| Events.FetchedExactly | services/blockchain/networks/evm/protocol/internal/service/service.go:93-107 | A block's events can be fetched if and only if every log of its successful receipts has a topic and, under the Transfer topic, at least three topics and a data word. |
| Events.AddressRepository.GetCustodyAddresses | services/blockchain/address/internal/repository/mem_repo.go:17-32 | All custodied addresses once each for an empty query, otherwise the custodied ones among those asked, in order. |
| Events.AddressesOf | services/blockchain/networks/evm/protocol/internal/service/service.go:333-342 | In whatever order the set is walked, the query holds every sender and receiver, and is empty for no events. |
| Events.FilterRelevantEvents | services/blockchain/networks/evm/protocol/internal/service/service.go:332-374 | The result is the relevant part of the list, whatever order the query had. |
| Events.RelevantIsExact | services/blockchain/networks/evm/protocol/internal/service/service.go:356-366 | It holds exactly the events with a custodied sender or receiver, in original order. |
| Events.RelevantReplay | services/blockchain/networks/evm/protocol/internal/service/service.go:356-366 | For a custodied address replaying it equals replaying the full list, debit by debit. |
| Events.IdsAreDistinct | services/blockchain/networks/evm/protocol/internal/service/erc20.go:48 | Two events at different positions of a chain with distinct transaction hashes have different ids. |
| Events.EventIdDenotes | services/blockchain/networks/evm/protocol/internal/service/erc20.go:48 | The id reads 0x, the hash in 64 hexadecimal digits, :LogIndex:, the index in decimal. |
| Events.EventIdIsInjective | services/blockchain/networks/evm/protocol/internal/service/erc20.go:48 | The id text determines hash and index. |
| Indexing.Indexer.Run | services/blockchain/indexer/internal/service/service.go:31-73 | The tick loop is a run of the step machine with exactly these ticks and the answers from outside. It fails if and only if a tip asked for is not answered, or a height up to one cannot be fetched or sent; otherwise the last indexed block is the highest of the start and the tips. |
| Indexing.Indexer.IndexBlock | services/blockchain/indexer/internal/service/service.go:51-66 | One height is fetched, published and saved in this order; it fails exactly when the fetch or the send of an event does, and then saves nothing. |
| Indexing.SucceedsExactly | services/blockchain/indexer/internal/service/service.go:31-73 | From a starting block other than zero a run succeeds if and only if all tips are answered and all heights up to the highest are delivered; the highest is the start or a tip and above none. |
| Indexing.Indexer.LastIndexedOrTip | services/blockchain/indexer/internal/service/service.go:75-90 | Zero is replaced by the tip, any other value is kept; an unanswered tip query is an error. |
| Indexing.ProgressRepo.SetLastIndexedBlock | services/blockchain/indexer/internal/repository/mem_repo.go:28-34 | The stored height is the given one. |
| Indexing.ProgressRepo.GetLastIndexedBlock | services/blockchain/indexer/internal/repository/mem_repo.go:21-26 | The stored height is returned. |
| Indexing.Publisher.PublishMessage | services/blockchain/indexer/internal/publisher/nats.go:30-48 | A block without events is skipped, any other is appended or its failure reported. |
| Indexing.IndexingIsGapFree | services/blockchain/indexer/internal/service/service.go:31-90 | For all tip answers, failures and stopping points the heights handed to Publish are start+1, start+2, ... once each, up to the last indexed block or one beyond; a non-zero starting block is the start, and sent are exactly those with events. |
| Indexing.BaseIsStart | services/blockchain/indexer/internal/service/service.go:31-90 | The height before the first one handed on is the starting block or, when that is zero, the first answer of the first tick whose two answers are not both zero. |
| Indexing.LastNeverFalls | services/blockchain/indexer/internal/service/service.go:50-66 | Between any two points of a run the last indexed block, once non-zero, never decreases, and what was handed on or sent is never taken back. |
| Ledger.InMemoryRepository.UpdateBalance | services/custody/internal/repository/inmemory.go:26-50 | Exactly one balance changes, by the amount, into a fresh number; numbers handed out before are not touched. |
| Ledger.InMemoryRepository.GetBalance | services/custody/internal/repository/inmemory.go:52-72 | The stored number itself, or a new zero. |
| Ledger.EventConsumer.ProcessEvent | services/custody/internal/consumer/consumer.go:72-123 | The ledger changes by the debit of a custodied sender and the credit of a custodied receiver of a USDC event, and not otherwise. |
| Ledger.EventConsumer.HandleMessage | services/custody/internal/consumer/consumer.go:52-62 | All events of a message, in order. |
| Ledger.NewCustodyLedger | services/custody/internal/service/custody.go:28-61 | The ledger holds exactly the node's answers for the custodied addresses; any bad answer is fatal. |
| Ledger.GetBalanceText | services/custody/internal/service/custody.go:76-91 | The text of the stored balance, from which a positive balance can be parsed back. |
| Ledger.UpdatesCommute | services/custody/internal/repository/inmemory.go:26-50 | Any two orders of the same updates leave the same ledger. |
| Ledger.BalanceIsSum | services/custody/internal/repository/inmemory.go:34-47 | Each final balance is the initial one plus the sum of its amounts. |
| Ledger.BlockUpdates | services/custody/internal/consumer/consumer.go:72-123 | The updates caused by one block move each custodied balance as the contract did, never below zero in between. |
| Ledger.OnlyCustodied | services/custody/internal/consumer/consumer.go:109-122 | Only custodied addresses are updated. |
| Custody.StepKeeps | services/custody/internal/consumer/consumer.go:52-123 | Every step of chain, indexer, channel and consumer keeps the pipeline consistent. |
| Custody.LedgerDrift | services/custody/internal/consumer/consumer.go:72-123 | In every run from any starting block, once the consumer has drained the channel, the ledger is off the contract at the last height handed on by exactly what the snapshot was off at the start. |
| Custody.LedgerMirrorsChain | services/custody/internal/consumer/consumer.go:72-123 | With a starting block that is already mined: whenever the indexer waits and the channel is drained, the ledger equals the contract at the last indexed block if and only if the snapshot equalled it at the starting block. |
| Custody.NoNegativeLedger | services/custody/internal/consumer/consumer.go:109-122 | With a snapshot taken at the start, every single update of every run leaves every custodied balance at or above zero. |
| Custody.NoRunPasses | services/blockchain/indexer/internal/service/service.go:50-60 | No run that starts before a block with a log that cannot be mapped ever hands on or indexes that block or a later one. |
| Custody.RunReaches | services/blockchain/indexer/internal/service/service.go:50-66 | If all blocks up to a later tip can be mapped, a waiting indexer can reach that tip. |
| Custody.Drains | services/custody/internal/consumer/consumer.go:52-62 | From every consistent state the consumer can drain the channel while chain and indexer rest. |
| Custody.PipelineDelivers | services/custody/internal/consumer/consumer.go:52-123 | Whatever blocks are mined, if they can be mapped, some run ends with all indexed, the channel drained, and the ledger equal to the contract at the tip wherever the snapshot was right at the starting block. |
| Fees.GetFees | services/blockchain/networks/evm/protocol/internal/service/service.go:459-487 | Tip and cap from the node's answers, with the gas price when there is no base fee. |
| Fees.CapCoversFiveBlocks | services/blockchain/networks/evm/protocol/internal/service/service.go:482-486 | The cap covers base fee plus tip in each of the next five blocks, for any possible gas use, if and only if the base fee is at least 5 wei. |

## Left out

- QrRoundTrip.RoundTripExact: says nothing for merchant templates of 170 to 189 and of 200 to 315 bytes, where the reader resumes inside a length or a detail, so that text the requester chose is read as headers; there Tlv.ReadBack still shows that the field list is not read back. No code from the generate handler that the transfer handler supports has such a template (Payments.SupportedMerchant).
- Preview.PreviewTlv: nothing is computed for a text on which the script never ends; the model only says that it hangs.
- Payments.ShownAmount: above 45035996273704.96 USDC only Doubles.CentsAreExact applies, and from 10^21 USDC on the form of the numeral shown is left out.
- Payments.EndToEnd: the PNG image between generating and scanning is left out, and so is the failure of the image encoder on very long codes.
- Custody.LedgerMirrorsChain: lost, repeated or reordered messages, restarts, reorganisations and address-service failures are not steps of the system, since the code has no handling for them; a failing call is a stop of the indexer.
- Indexing.Indexer.Run: the ticker and the context are replaced by a finite list of ticks and by the stop step; a tip of 2^64 - 1, at which the 64-bit loop counter wraps around, is excluded.
- HTTP routing, JSON, HTML and the rest of the dashboard script: input and output.
- gRPC, NATS, JSON-RPC, protobuf and generated bindings: replaced by typed values, an append-only connection and an append-only chain.
- Signing, keys, Keccak and checksum casing of addresses: addresses and hashes are fixed-width values.
- Nonces, gas estimation and transfer simulation: their answers come from the node.
- Configuration and broadcaster dispatch: finite case splits that would only add easy members.
