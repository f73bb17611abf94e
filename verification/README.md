# Truck danger-zone video analysis: a Dafny model

This project models the anomaly-selection core of a small video-analysis
service (`app_Service.py`). A client uploads a video. The service reads it
frame by frame and runs an object detector on every `FRAME_SKIP`-th frame. A
sampled frame is dangerous when some person's box ends in the lowest third of a
truck's box, or below the truck. Dangerous frames are saved as anomalies under
two rules: the first one is always saved, and each later one must come more
than `MIN_FRAME_INTERVAL` frames after the previous save. Reading stops once
`MAX_ANOMALY_FRAMES` are saved. The service then answers with a "safe" payload,
or with an "anomalous" payload that carries one base64 image per saved frame.

The modules follow the program's structure:

- `Settings`: the constants of `config.py`, passed to the model as a `Config` value.
- `DangerZone`: `check_person_in_danger_zone`.
- `FrameAnalysis`: what `process_frame` computes, as functions from detections to boxes to pairs.
- `Selection`: the saving policy, in two forms. `ValidSelection` states it declaratively; `Admitted` states it as the loop reads frames. The two are proved to agree.
- `Text` and `Base64`: the string formatting and base64 encoding (section 4 of RFC 4648) that the packaging uses.
- `Packaging`: `_save_anomaly_frame`, `_format_anomaly_result` and `_format_safe_result`.
- `Upload`: the filename checks of `VideoAnalysis.post`.
- `Service`: the `VideoProcessor` class, whose `model` field is set by `InitModel`, and the `VideoAnalysis` endpoint.

`VideoProcessor.ProcessFrame`, `VideoProcessor.ScanFrames` and
`Packaging.FormatAnomalyResult` keep the source's loops, each with its
invariants. Each is proved against a specification function:
`FrameAnalysis.Classify`, `Service.ScanResult` and `Packaging.AnomalyResult`.
Lemmas then prove what the source promises about those functions.

Everything outside the program is a parameter:

- the detector is a function from a frame to its detections;
- the video decoder maps the uploaded stream to an opened video, or to `None` when it cannot be opened;
- the JPEG encoder maps an annotated frame to bytes;
- the wall clock is a function: `clock(k)` is the timestamp text read when the k-th anomaly is saved.

The exceptions the source raises are `Err` values:

- "模型未初始化" (no model);
- "无法打开视频流" (the video cannot be opened);
- "float division by zero", when a video reports a frame rate of 0 and a frame is saved.

## Model

| member | source | states |
|---|---|---|
| DangerZone.ZoneTop | app_Service.py:75-81 | the danger zone starts one third of the truck's height above its bottom edge, and lies inside the box when the box is well formed |
| DangerZone.InDangerZone | app_Service.py:73-88 | for a well-formed truck box, a person is in danger exactly when their bottom edge is at or below the zone's top: the "lower third" and "below the truck" cases join into one half-line. For an inverted box, only "strictly below the truck" remains |
| DangerZone.DangerZoneDownwardClosed | app_Service.py:84-88 | moving a person's bottom edge further down never takes them out of the zone |
| DangerZone.DangerZoneBoundaries | app_Service.py:84-86 | the zone's top edge itself is dangerous (inclusive bound); anything below the truck is dangerous; a person ending at the truck's top edge is not |
| FrameAnalysis.BoxesMembership | app_Service.py:56-62 | a box is kept exactly when some detection of that class, with confidence strictly above the threshold, has that box |
| FrameAnalysis.PairsWithMembership | app_Service.py:66-69 | the pairs for one person are exactly that person with each truck whose zone they are in |
| FrameAnalysis.DangerPairsMembership | app_Service.py:64-69 | the reported pairs are exactly the person × truck combinations in the danger zone |
| FrameAnalysis.ClassifyCorrect | app_Service.py:44-71 | a frame is dangerous exactly when some confident person detection and some confident truck detection form a danger-zone pair; every reported pair is in the zone |
| Service.VideoProcessor.ProcessFrame | app_Service.py:44-71 | without a model the result is the "model not initialised" error; with a model, the loops compute exactly Classify of the detector's output: the same boxes in detection order and the same pairs in person-then-truck order, dangerous iff any pair |
| Service.VideoProcessor.constructor | app_Service.py:32-33 | a new processor has no model |
| Service.VideoProcessor.InitModel | app_Service.py:35-42 | a successful load installs the model; a failed one reports failure and leaves the model as it was |
| Selection.AlarmsAt | app_Service.py:120-130 | flag i is set exactly when frame number i + 1 is a multiple of frameSkip and the detector finds that frame dangerous |
| Selection.FirstSampled | app_Service.py:120-124 | among frame numbers 1 to frameSkip, only frameSkip itself is sampled |
| Selection.AdmittedValid | app_Service.py:111-139 | the frames Admitted selects satisfy the declarative policy ValidSelection. At most maxAnomalies frames are selected, and each is a sampled dangerous frame. They are increasing and spaced more than minInterval apart. Every dangerous frame that was read but not saved lies within minInterval after a saved one. Reading stops at the end of the video or on the frame that reaches the cap |
| Selection.ValidSelectionUnique | app_Service.py:111-139 | at most one selection, with its stopping point, satisfies the policy, so the policy determines which frames are saved |
| Selection.NothingSelectedIffNoAlarm | app_Service.py:130-145 | a valid selection is empty exactly when no sampled frame is dangerous |
| Selection.AdmittedEmptyIffNoAlarm | app_Service.py:130-145 | Admitted is empty exactly when no sampled frame is dangerous |
| Selection.AdmittedCapped | app_Service.py:137-139 | once the cap is reached, further frames admit nothing |
| Selection.AdmittedLast | app_Service.py:133-139 | the admission that reaches the cap is the last one of the whole video |
| Selection.PassOverFrame | app_Service.py:130-132 | a dangerous frame within minInterval after the last save is passed over, and the policy's invariant is kept |
| Selection.AdmitFrame | app_Service.py:130-135 | saving an eligible dangerous frame keeps the policy's invariant: still increasing, spaced, and suppressing every earlier passed-over frame |
| Service.VideoProcessor.ScanFrames | app_Service.py:111-139 | the sampling loop returns ScanResult. With a model, these are the records of the frames Admitted selects, or the division error when the frame rate is 0 and a frame is admitted. Without a model, it is the "model not initialised" error if the video has at least frameSkip frames, and no records otherwise |
| Service.ScanFromStart | app_Service.py:111-139 | run step by step from the initial state (no frame read, nothing saved), the loop yields ScanResult |
| Service.ScanFromNoModel | app_Service.py:46-47 | without a model, the loop fails exactly when it reaches the first sampled frame |
| Service.ScanFromState | app_Service.py:115-139 | from any state the loop can reach after n frames, the rest of the loop yields ScanResult |
| Service.ScanFollowsPolicy | app_Service.py:111-139 | with a nonzero frame rate, the frame numbers of the returned records form the valid selection and are all positive multiples of frameSkip; record k is the frame saved for the k-th selected frame, stamped with the k-th clock reading |
| Service.AdmittedSampled | app_Service.py:120-124 | every admitted frame number is a positive multiple of frameSkip |
| Service.ScanIgnoresFramesAfterCap | app_Service.py:137-139 | reading stops at the cap: once the frames read so far have admitted maxAnomalies frames, appending any frames to the video changes neither the scan result nor the report, so no later frame is ever looked at |
| Service.DetectorSeesOnlySampledFrames | app_Service.py:120-127 | only sampled frames reach the detector: two detectors that agree on every frame whose number is a multiple of frameSkip give the same scan result and the same report |
| Service.SavedFileNamesDistinct | app_Service.py:160 | the frames saved in one scan get pairwise different file names, so no saved image overwrites another |
| Service.RecordsAt | app_Service.py:133-134 | record k is the record saved for the k-th admitted frame |
| Service.AdmittedEmptyIffNoDanger | app_Service.py:120-145 | nothing is admitted exactly when no sampled frame of the video is dangerous |
| Service.ScanOutcome | app_Service.py:130-139 | with a model, the scan returns no records exactly when no sampled frame is dangerous. Otherwise it returns records, or the division error when the frame rate is 0 |
| Service.VideoProcessor.ProcessVideoStream | app_Service.py:90-145 | an unopenable video gives the decode error; scan errors pass through; otherwise the records are packaged, safe exactly when there are none |
| Service.StreamOutcome | app_Service.py:90-145 | with a model and an opened video, the safe result comes back exactly when no sampled frame is dangerous. Otherwise the anomalous result comes back, or the division error when the frame rate is 0 |
| Service.StreamReportsAdmitted | app_Service.py:156-223 | entry k of the anomalous payload carries the k-th admitted frame number, its time in seconds (frame number over frame rate), and the file name stamped with the k-th clock reading. Its image data decodes back to the encoder's bytes for that frame's annotated copy |
| Packaging.Trunc | app_Service.py:179 | int() of a float truncates toward zero |
| Packaging.SecondsTimesRate | app_Service.py:159 | a frame's time in seconds times the frame rate is its frame number |
| Packaging.SaveAnomalyFrame | app_Service.py:156-191 | the record keeps the frame number, its time in seconds, a copy of the frame with the dangerous pairs and the caption drawn on it, and the file name stamped with the clock reading |
| Packaging.CaptionDetermines | app_Service.py:178-180 | two captions are equal exactly when they name the same frame number and the same whole seconds |
| Packaging.AnomalyFileNameInjective | app_Service.py:160 | two file names are equal exactly when they have the same stamp and the same frame number |
| Packaging.DetailDetermines | app_Service.py:210-214 | two detail lines are equal exactly when they give the same position, frame number and whole seconds |
| Packaging.SummaryTextDetermines | app_Service.py:220 | two messages are equal exactly when they give the same count and the same joined details |
| Packaging.FormatSafeResult | app_Service.py:225-233 | the safe result has status "success" and the safe payload |
| Packaging.Package | app_Service.py:142-145 | the result has status "success" and is the safe payload exactly when no anomaly was saved |
| Packaging.FormatAnomalyResult | app_Service.py:193-223 | the loop builds AnomalyResult: one image entry and one numbered detail line per record, in order, and the count and the joined details in the message |
| Packaging.EntriesAt | app_Service.py:198-208 | entry k is built from record k alone |
| Packaging.DetailsAt | app_Service.py:210-214 | detail line k is numbered k + 1 and describes record k |
| Packaging.AnomalyResultFaithful | app_Service.py:193-223 | the anomalous payload has one entry per record, carrying that record's frame number, time and file name. Its image data decodes back to exactly the encoder's bytes |
| Base64.Encode | app_Service.py:201 | the encoding of n bytes has 4 × ⌈n / 3⌉ characters |
| Base64.DecodeEncode | app_Service.py:201 | decoding the encoding gives back exactly the bytes |
| Base64.EncodeInjective | app_Service.py:201 | different images have different encodings |
| Text.Decimal | app_Service.py:160 | str() of a frame number is a nonempty run of digits without leading zeros |
| Text.DecimalRoundTrip | app_Service.py:160 | reading those digits back gives the number |
| Text.DecimalInjective | app_Service.py:160 | different frame numbers give different texts |
| Text.IntText | app_Service.py:213 | str() of an int starts with '-' exactly for negative values |
| Text.IntTextRoundTrip | app_Service.py:213 | the digits after any sign read back as the magnitude of the int |
| Text.IntTextInjective | app_Service.py:179 | different ints give different texts |
| Text.JoinFirst | app_Service.py:220 | read from the front, "; ".join is the first part, one separator, then the join of the rest, so neighbouring parts are separated by exactly one separator |
| Text.LowerSuffix | app_Service.py:267 | lower-casing commutes with taking a suffix |
| Upload.CheckUpload | app_Service.py:251-272 | each rejection happens exactly under its condition, in the source's order: no "video" field, then an empty filename, then a name whose lower-cased form ends in none of the formats. Otherwise the upload is accepted and is the "video" field |
| Upload.SupportedByLastFour | app_Service.py:267 | when every supported suffix has four characters, as ".mp4", ".avi" and ".mov" do, a name is accepted exactly when its last four characters, lower-cased, are one of them |
| Upload.DefaultFormats | config.py:21-34 | the shipped configuration has a positive FRAME_SKIP and MAX_ANOMALY_FRAMES, and four-character formats, so an upload passes the format check exactly when its name ends, in any case, in ".mp4", ".avi" or ".mov" |
| Service.Render | app_Service.py:276-289 | an accepted upload always gets 200. On success the body is the payload itself; on an exception it is the failure prefix followed by the exception's text |
| Service.RenderDistinguishesErrors | app_Service.py:284-289 | different exceptions give different failure messages |
| Service.VideoAnalysis.constructor | app_Service.py:236 | the endpoint uses the one processor instance |
| Service.VideoAnalysis.Post | app_Service.py:248-289 | a rejected upload gets 400 with the error status and that rejection's message, and is never processed. An accepted upload gets the rendered outcome of decoding and processing it with the processor's current model |

## Left out

- Loading YOLO weights, running the network, decoding video with OpenCV, JPEG encoding and drawing rectangles and text: the detector, decoder and encoder are parameters, and an annotated frame records what is drawn (the pairs and the caption) instead of pixels.
- Writing the upload to a temporary file, removing it, releasing the decoder, and writing anomaly images to `static/anomalies`: file-system effects with no bearing on the result.
- Logging, `HealthCheck`, `_create_response`'s `jsonify` wrapping, Flask routing and `MAX_CONTENT_LENGTH`: framework plumbing.
- The wall clock: timestamps are the `clock` parameter, read once per saved frame as the source does.
- Floating point: coordinates, confidences, frame rates and times are exact reals, so rounding in `frame_count / fps` and in the zone boundary is not modelled. A NaN frame rate is outside the model. A negative frame rate gives a negative time, as in the source; only a zero frame rate raises.
- Python's `str.lower()` is modelled on ASCII letters only. The extensions involved are ASCII, but a non-ASCII character that lower-cases into ASCII is not modelled.
- The `else` branch after `process_video_stream` in `post` (`result['status'] != 'success'`) cannot be taken: both formatters set status "success". The model has no counterpart for it.
- Exceptions other than the three named above (detector or decoder crashes, I/O errors) are not modelled.
- `InitModel` reports a failed load as `false` instead of re-raising; the model field is unchanged in both.
- `Settings.Config.Valid` requires a positive `FRAME_SKIP` and a positive `MAX_ANOMALY_FRAMES`, as the shipped values are. A zero skip would make the source divide by zero in `%`, which is not modelled.
- `serviceStudy.py` and `clientStudy.py` are not part of this model.
