# Outfit bot core: URL extraction, image-type sniffing, live-search link merging

This project models, in Dafny, the three pieces of deterministic logic in a
Telegram outfit-suggestion bot and proves their properties:

- **URL extraction** (`utils.py`, module `Utils`). The pattern
  `https?://[^\s)>\]]+` is a scanner over the characters of a text.
  `MatchEnd` decides whether a match starts at an index and where its maximal
  run of URL characters ends. `Spans` is the leftmost, non-overlapping
  `findall` scan, and `Findall` gives the matched substrings.
  `ExtractUrls` is the imperative `seen`-set / `out`-list loop. It is proved
  equal to `Extracted`, the order-preserving de-duplication (`Seqs.Unique`)
  of the matches. Python's `\s` is the predicate `Utils.IsSpace`: the
  characters for which `str.isspace()` holds (U+0009–U+000D, U+001C–U+001F,
  U+0020, U+0085, U+00A0, U+1680, U+2000–U+200A, U+2028, U+2029, U+202F,
  U+205F, U+3000). The terminators are those characters plus `)`, `>` and `]`.
- **Magic-byte classification** (`imghdr.py`, module `Imghdr`, and
  `imghdr_monkeypatch.py`, module `ImghdrMonkeypatch`). Both read the first
  32 bytes of a file. The file is an `Option<seq<byte>>`: `None` means the
  path is not a file or cannot be opened. The shared signatures and the read
  are in `ImageFormats`. The returned strings `'jpeg'`, `'png'`, … are the
  datatype `ImageKind`, and `ImageFormats.Name` gives back the strings.
- **Link merging** (`grok_client.py`, module `GrokClient`). Each HTTP
  response is an input value (`Response`). `LiveSearch` says how text and
  URLs are picked out of it. `ForceLinks` covers the one-pass or two-pass
  decision and the merge of the two passes.

utils.py strips neither trailing punctuation nor zero-width characters, so
a trailing `.` stays in the URL.

## Model

| member | source | states |
|---|---|---|
| `Utils.IsSpace` | utils.py:3 | the class `\s`: the characters for which `str.isspace()` holds; used by `RunEnd`, `MatchEndMaximal` and `UrlTokenShape` |
| `Utils.IsTerminator` | utils.py:3 | a character outside `[^\s)>\]]`; `RunEnd` and `MatchEndMaximal` state that a match holds none and ends at one |
| `Utils.HttpsAt` | utils.py:3 | "https://" spelled from an index; `SchemeSpelling` proves it is the `startswith` test |
| `Utils.HttpAt` | utils.py:3 | "http://" spelled from an index; `SchemeSpelling` proves it is the `startswith` test |
| `Utils.SchemeSpelling` | utils.py:3 | the character tests `HttpsAt`/`HttpAt` hold exactly when the text from that index starts with "https://"/"http://" |
| `Utils.RunEnd` | utils.py:3 | the end of the run `[^\s)>\]]+` holds no terminator and is the end of text or a terminator (maximal munch) |
| `Utils.MatchEnd` | utils.py:3 | a match at i ends inside the text, at least 8 characters on, and at least 9 when the scheme is "https://" (the scheme and one more character) |
| `Utils.MatchEndMaximal` | utils.py:3 | a match starts at i exactly when "https://" or "http://" is followed by a URL character there; the match is longer than its scheme, holds no terminator and ends at a terminator or the end of the text |
| `Utils.Spans` | utils.py:7 | the left-to-right `findall` scan; `SpansMatches` and `SpansLeftmost` prove it records exactly the leftmost non-overlapping matches |
| `Utils.Findall` | utils.py:7 | `_URL_RE.findall`: the texts of the scan's spans; `SlicesAt`, `FindallSubstrings` and `FindallTokens` characterise its elements |
| `Utils.TextOrEmpty` | utils.py:7 | `text or ""`; `EmptyTextNoUrls` shows `None` and "" both give [] |
| `Utils.Extracted` | utils.py:11 | the list `extract_urls` returns; `ExtractUrls` proves the loop computes it and `ExtractedOrder`, `ExtractIdempotent` state its membership, order and idempotence |
| `Utils.SpansMatches` | utils.py:7 | the `findall` scan records only positions where the pattern matches, with the end `MatchEnd` gives, in increasing and non-overlapping order |
| `Utils.SpansLeftmost` | utils.py:7 | every index where a match could start lies inside a recorded match, so the scan skips no match (leftmost, non-overlapping) |
| `Utils.UrlTokenShape` | utils.py:3 | a URL token starts with "https://" or "http://", is at least 8 characters long and holds no whitespace, `)`, `>` or `]` |
| `Utils.ExtractUrls` | utils.py:5-11 | the loop returns the de-duplication of the `findall` matches: no duplicates, exactly the matched strings, each a URL token |
| `Utils.MatchIsToken` | utils.py:3 | a matched substring has the URL-token shape |
| `Utils.SlicesAt` | utils.py:7 | the k-th `findall` string is the text between the k-th span's bounds |
| `Utils.FindallTokens` | utils.py:3 | every `findall` match has the URL-token shape |
| `Utils.FindallSubstrings` | utils.py:3-7 | every match is a non-empty contiguous substring of the text that ends at a terminator or the end of the text |
| `Utils.NoSchemeNoUrls` | utils.py:7 | a text with neither "http://" nor "https://" anywhere (from a given index on) yields no match and an empty result |
| `Utils.EmptyTextNoUrls` | utils.py:7 | `None` and the empty text both yield an empty list |
| `Utils.TokenMatchedWhole` | utils.py:3 | a URL token followed by a terminator or the end of the text is matched whole |
| `Utils.JoinSpaceJoinedAt` | utils.py:3-7 | the space-joined string of a list is laid out token by token, one space between tokens |
| `Utils.SpansSkipSpace` | utils.py:3 | no match starts at a space, so the scan steps over it |
| `Utils.SlicesOfLayout` | utils.py:7 | slicing a laid-out text at the tokens' positions gives back the tokens |
| `Utils.SpansOfLayout` | utils.py:3-7 | the scan of space-separated URL tokens records exactly the tokens' positions |
| `Utils.ScanJoin` | utils.py:3-7 | scanning the space-joined URL tokens gives back exactly those tokens |
| `Utils.ExtractIdempotent` | utils.py:3-11 | extracting from the space-joined result of an extraction gives the same list |
| `Utils.ExtractedOrder` | utils.py:7-10 | the result holds every match, and the results appear in the order of their first occurrence among the matches |
| `Seqs.Unique` | utils.py:6-10 | the `seen`-set de-duplication, also `dict.fromkeys` at grok_client.py:31; characterised by `UniqueElements`, `UniqueNoDup`, `UniqueFirstOccurrenceOrder`, `UniqueOfNoDup` and `UniqueAppend` |
| `Seqs.UniqueElements` | utils.py:6-10 | de-duplication keeps exactly the elements of its input |
| `Seqs.UniqueNoDup` | utils.py:8-10 | de-duplication leaves no element twice |
| `Seqs.UniqueFirstOccurrenceOrder` | grok_client.py:31 | `dict.fromkeys` order: the kept elements follow the order of their first occurrences |
| `Seqs.UniqueOfNoDup` | utils.py:8-10 | a list without duplicates is unchanged by de-duplication |
| `Seqs.UniqueAppend` | grok_client.py:31 | de-duplicating `a + b` starts with the de-duplication of `a`; every later element is absent from `a` |
| `ImageFormats.Name` | imghdr.py:23-33 | the strings 'jpeg', 'png', 'gif', 'bmp', 'webp'; `NamesDistinct` proves they tell the kinds apart |
| `ImageFormats.NamesDistinct` | imghdr.py:23-33 | two kinds have the same name exactly when they are the same kind, and every name is one of the five strings |
| `ImageFormats.IsJpeg` | imghdr.py:22 | `head.startswith(b'\xff\xd8\xff')`; `SignaturesDisjoint` and `HeaderSignatures` characterise it |
| `ImageFormats.IsPng` | imghdr.py:24 | the PNG signature test; `SignaturesDisjoint` and `HeaderSignatures` characterise it |
| `ImageFormats.IsGif` | imghdr.py:26 | either GIF signature; `SignaturesDisjoint` and `HeaderSignatures` characterise it |
| `ImageFormats.IsBmp` | imghdr.py:28 | `head.startswith(b'BM')`; `SignaturesDisjoint` and `HeaderSignatures` characterise it |
| `ImageFormats.IsWebp` | imghdr.py:30 | "RIFF" and "WEBP" at bytes 8-12; `SignaturesDisjoint` and `HeaderSignatures` characterise it |
| `ImageFormats.ReadHead` | imghdr.py:12-16 | the header is `None` exactly for a non-file, else the first min(32, length) bytes of the contents |
| `ImageFormats.HeaderSignatures` | imghdr.py:22-31 | each signature test gives the same answer on the 32-byte header as on the whole file |
| `ImageFormats.SignaturesDisjoint` | imghdr.py:22-31 | the JPEG, PNG, GIF, BMP and RIFF/WEBP signatures exclude each other |
| `Imghdr.What` | imghdr.py:5-33 | no result exactly for a non-file or a file under 32 bytes; otherwise png/gif/bmp/webp exactly when the header has that signature, and jpeg for FF D8 FF or no known signature |
| `Imghdr.LongFileClassified` | imghdr.py:18-33 | a file of 32 bytes or more always gets a result, and an unrecognised header gives jpeg |
| `Imghdr.HeaderDetermines` | imghdr.py:14 | two files sharing their first 32 bytes classify identically |
| `Imghdr.TwelveBytesDetermine` | imghdr.py:22-31 | two long files sharing their first 12 bytes classify identically |
| `ImghdrMonkeypatch.What` | imghdr_monkeypatch.py:7-27 | no result exactly for a non-file or a short file; never webp; png/gif/bmp exactly by signature, jpeg otherwise |
| `ImghdrMonkeypatch.WebpReadsAsJpeg` | imghdr_monkeypatch.py:27 | a long RIFF/WEBP header gives jpeg through the default branch |
| `ImghdrMonkeypatch.AgreesWithImghdr` | imghdr_monkeypatch.py:7-27 | the two classifiers agree exactly when imghdr.py does not answer webp; they differ only on long RIFF/WEBP files, which the patch calls jpeg |
| `ImghdrMonkeypatch.EightBytesDetermine` | imghdr_monkeypatch.py:19-25 | two long files sharing their first 8 bytes classify identically |
| `GrokClient.FirstChoice` | grok_client.py:27 | `(resp.get("choices") or [{}])[0]`; `NoChoicesNothingFound` shows a missing or empty list reads as an empty choice |
| `GrokClient.MessageOf` | grok_client.py:28 | `choice.get("message", {})`; used by `LiveSearchText` |
| `GrokClient.OrElse` | grok_client.py:29 | Python's `a or b` on an optional string; `LiveSearchText` spells out its three cases |
| `GrokClient.ResponseText` | grok_client.py:29 | the text chosen from a response; `LiveSearchText` states it case by case |
| `GrokClient.Citations` | grok_client.py:30 | `msg.get("citations") or []`; `LiveSearch` states the citations come first, de-duplicated, and `CitingOnly` that they are returned as given |
| `GrokClient.LiveSearch` | grok_client.py:27-32 | the returned URLs have no duplicates; they are exactly the citations and the URLs found in the text; the de-duplicated citations come first, every later URL is one that only the text holds, and all appear in the order of their first occurrence in the citations followed by the extracted URLs |
| `GrokClient.LiveSearchText` | grok_client.py:29 | the text is the message content if non-empty, else the choice text if non-empty, else "" |
| `GrokClient.NoChoicesNothingFound` | grok_client.py:27-31 | a missing or empty `choices` gives the text "" and no URLs |
| `GrokClient.SliceTo` | grok_client.py:44 | a Python list slice `[:n]` is a prefix of the list, the whole list when n reaches the length |
| `GrokClient.ForceLinks` | grok_client.py:34-45 | a first pass with at least `min_links` URLs is returned as is; otherwise the links are exactly the first pass's URLs followed by the second's, with the first text if non-empty, else the second |
| `GrokClient.SliceBoundNoOp` | grok_client.py:44 | the slice bound `max(min_links, len(urls) + len(urls2))` never shortens the concatenation |
| `GrokClient.SufficientFirstPass` | grok_client.py:37-38 | when the first pass suffices, the second response has no influence on the result |
| `GrokClient.CitingOnly` | grok_client.py:27-31 | a text-less response citing distinct URLs yields exactly those URLs |
| `GrokClient.TwoPassKeepsDuplicates` | grok_client.py:44 | when both passes find the same URLs and the first is too short, every URL appears twice in the merged links |
| `GrokClient.TwoPassMayFallShort` | grok_client.py:42-45 | two empty passes return fewer than `min_links` links |

## Left out

- bot.py: Telegram handler registration, polling, replies, logging and the hardcoded outfit table are messaging-SDK glue.
- The HTTP request in grok_client.py (`requests.post`, `raise_for_status`, `r.json()`), the request payload, the `model` and `max_results` parameters, and the second-pass prompt text: each response is an input instead.
- The `XAI_API_KEY` check at import time in grok_client.py: it reads the environment.
- JSON values of unexpected type: a `message` key holding `null`, non-string `content` or `text`, a non-list `choices`, a non-list or unhashable `citations` (a TypeError at grok_client.py:31). Python raises or behaves dynamically there; the model's datatypes admit only the expected shapes.
- File-system access in both classifiers (`os.path.isfile`, `open`, the bare `except`): it is abstracted as an optional byte sequence.
- The `sys.modules['imghdr']` assignment in imghdr_monkeypatch.py only changes the interpreter's module table.
- Python strings may hold lone surrogate code points; Dafny's `char` does not, so texts with them are outside the model.
- The default `min_links=3` of `force_links` (grok_client.py:34): `ForceLinks` takes `minLinks` as an explicit argument, so a call without it is a call with 3.
