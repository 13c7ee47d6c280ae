# Embedded-Image-Processing: verified model of the byte-level core

This project models the small integer and byte-level algorithms of the
Embedded-Image-Processing coursework repository and proves what they promise.
It covers five parts:

- **Image pipeline on the microcontroller** (`odev3/Core/Src/main.c`):
  - a 64x64 grey image in a row-major byte buffer, read through the bounds-checked `get_pixel`;
  - Otsu binarisation: the histogram, the between-class-variance threshold search, and in-place thresholding;
  - 3x3 erosion and dilation, which write a scratch buffer and copy it back with `memcpy`.

  The buffers are Dafny arrays and the loops are methods with invariants.
  Each method is proved against a specification function: `Eroded`, `Dilated`, `Histogram`, `IsOtsuThreshold`.
- **MNIST IDX codec** (`odev4/mnist.py`, `odev4/prepare_dataset.py`):
  - the writers `write_idx_images` and `write_idx_labels`;
  - the strict readers `load_idx_images` and `load_idx_labels`;
  - the lenient reader inside `verify_and_visualize`.

  Files are byte sequences. Python exceptions become `Err` values.
- **Model-to-C serialisers**:
  - `to_c_array` (`Odev5/.../convert_tflite_to_c.py`), a pure function;
  - the loop in `Final_Project/Soru2/convert_tflite_to_c.py`, a string-building method.

  Both are proved to read back to the input bytes.
- **Brightest-pixels threshold** (`Final_Project/Soru1/odev_soru1.py`): the downward cumulative scan of a 256-bin histogram that stops once 1000 pixels are reached.
- **YOLO label generation** (`Final_Project/Soru2/make_yolo_labels.py`):
  - `to_yolo` over exact rationals;
  - the noise rule `w*h < 200`;
  - the digit-named class-directory filter and the output names;
  - the `ok`/`fail` loop.

  What OpenCV makes of each image is an input.

Python's `str(n)`, `int(s)`, `sep.join` and `str.split` are defined once, in module `Text`, with their own lemmas.

## Model

| member | source | states |
|---|---|---|
| Morphology.GetPixel | odev3/Core/Src/main.c:58-61 | outside 0..63 x 0..63 the read is 0; inside, the index y*64+x lies in the buffer and the read is that byte |
| Morphology.PixelOfIndex | odev3/Core/Src/main.c:58-61 | every buffer index i is the in-image read at (i % 64, i / 64) |
| Morphology.WindowMinIsMin | odev3/Core/Src/main.c:103-109 | the running minimum of the first n window reads is at most each of them and equal to one of them |
| Morphology.WindowMaxIsMax | odev3/Core/Src/main.c:120-126 | the running maximum of the first n window reads is at least each of them and equal to one of them |
| Morphology.WindowMinStep | odev3/Core/Src/main.c:104-108 | one more read at offset (kx, ky) updates the running minimum exactly as the `if (val < min_val)` step |
| Morphology.WindowMaxStep | odev3/Core/Src/main.c:121-125 | one more read at offset (kx, ky) updates the running maximum exactly as the `if (val > max_val)` step |
| Morphology.ErodePixel | odev3/Core/Src/main.c:103-109 | the two inner loops return the minimum over the pixel's 3x3 window |
| Morphology.DilatePixel | odev3/Core/Src/main.c:120-126 | the two inner loops return the maximum over the pixel's 3x3 window |
| Morphology.ApplyErosion | odev3/Core/Src/main.c:100-114 | afterwards src is the erosion of the old src and dest holds the same contents |
| Morphology.ApplyDilation | odev3/Core/Src/main.c:117-131 | afterwards src is the dilation of the old src and dest holds the same contents |
| Morphology.WindowOffsets | odev3/Core/Src/main.c:104-106 | the k-th window read is the neighbour at offset (k%3-1, k/3-1), so the window is exactly the nine offsets in -1..1 |
| Morphology.ErodedIsNeighbourhoodMin | odev3/Core/Src/main.c:101-113 | an eroded pixel is at most every 3x3 neighbour (outside neighbours read 0) and equals one of them |
| Morphology.DilatedIsNeighbourhoodMax | odev3/Core/Src/main.c:118-130 | a dilated pixel is at least every 3x3 neighbour and equals one of them |
| Morphology.ErosionShrinksAndClearsBorder | odev3/Core/Src/main.c:58-110 | erosion never raises a pixel, and every pixel on the border of the image becomes 0 |
| Morphology.DilationGrows | odev3/Core/Src/main.c:118-127 | dilation never lowers a pixel |
| Morphology.SumIncrement | odev3/Core/Src/main.c:66 | incrementing one histogram bin raises the bin total by one |
| Morphology.Histogram | odev3/Core/Src/main.c:65-66 | the 256 bins of `histogram`: bin v is the number of pixels equal to v |
| Morphology.BuildHistogram | odev3/Core/Src/main.c:65-66 | bin v counts the pixels equal to v among the first `size`, and the bins sum to `size` |
| Morphology.Binarize | odev3/Core/Src/main.c:94-96 | each of the first `size` pixels becomes 255 if it exceeded the threshold and 0 otherwise; the rest is untouched |
| Morphology.OtsuThresholdUnique | odev3/Core/Src/main.c:74-91 | at most one level satisfies the Otsu choice for a histogram |
| Morphology.StopsAt | odev3/Core/Src/main.c:79-80 | once the background holds every pixel the search breaks, so it weighs no later level |
| Morphology.ReachedNext | odev3/Core/Src/main.c:76-80 | the search goes on to the next level unless the current one holds every pixel |
| Morphology.TotalLevelSum | odev3/Core/Src/main.c:68-69 | `sum_total` is the sum of level times count over all 256 levels |
| Morphology.IsOtsuThreshold | odev3/Core/Src/main.c:74-91 | the level the search must select: the first candidate level whose between-class variance is positive and maximal, else 0 |
| Morphology.OtsuThreshold | odev3/Core/Src/main.c:71-91 | the returned level is the first one weighed whose between-class variance is positive and maximal; it is 0 when no weighed level has positive variance |
| Morphology.ApplyOtsu | odev3/Core/Src/main.c:64-97 | the threshold is Otsu's choice for the histogram of the old pixels; every pixel becomes 0 or 255, and 255 exactly when it exceeded the threshold; pixels past `size` are unchanged |
| IdxLayout.BeU32 | odev4/prepare_dataset.py:13 | `struct.pack(">I", n)` is four bytes |
| IdxLayout.BigEndian4 | odev4/mnist.py:17 | four bytes read as b0*2^24 + b1*2^16 + b2*2^8 + b3 |
| IdxLayout.ReadBeU32 | odev4/mnist.py:17 | an unpacked header word is below 2^32 |
| IdxLayout.ReadBeU32OfBeU32 | odev4/prepare_dataset.py:13 | packing then unpacking is the identity on every n < 2^32 |
| IdxLayout.BeU32OfReadBeU32 | odev4/mnist.py:17 | unpacking then packing four bytes gives them back |
| IdxLayout.ChunksOfConcat | odev4/mnist.py:28 | cutting a concatenation of equal blocks into blocks restores them |
| IdxLayout.Reshape | odev4/mnist.py:28 | reshaping N*R*C bytes gives N images of R rows of C bytes |
| IdxLayout.Flatten | odev4/prepare_dataset.py:14 | `tobytes` of an N x R x C array: the images, each row by row, one after the other |
| IdxLayout.FlattenLength | odev4/prepare_dataset.py:14 | `tobytes` of an N x R x C array is N*R*C bytes |
| IdxLayout.ReshapeAt | odev4/mnist.py:25-28 | element (i, r, c) of the reshaped payload is byte i*R*C + r*C + c (row-major) |
| IdxLayout.ReshapeOfFlatten | odev4/mnist.py:28 | reshaping `tobytes` of a well-formed array gives the array back |
| Mnist.Word | odev4/mnist.py:17 | header word k is below 2^32 |
| Mnist.DecodeImages | odev4/mnist.py:5-30 | fails on fewer than 16 bytes; rejects a magic other than 2051 with the magic read; succeeds exactly when the magic is 2051 and the payload is N*R*C bytes; the result has the header's N, R and C |
| Mnist.DecodedImagesAre | odev4/mnist.py:24-28 | a decoded array is the payload after the 16-byte header reshaped to (N, R, C) |
| Mnist.DecodeLabels | odev4/mnist.py:32-51 | fails on fewer than 8 bytes; rejects a magic other than 2049; succeeds exactly when the magic is 2049, returning every byte after the header |
| Mnist.LabelCountUnchecked | odev4/mnist.py:41-49 | for every declared count N < 2^32 and every payload, a label file with magic 2049 decodes to the whole payload, whether or not its length is N |
| PrepareDataset.WordOf | odev4/prepare_dataset.py:13 | a header word written with `>I` reads back as the value written |
| PrepareDataset.EncodeImages | odev4/prepare_dataset.py:7-14 | succeeds exactly when N, R and C fit 32 bits (otherwise `struct.error`); the file is 16 + N*R*C bytes |
| PrepareDataset.EncodedImagesLayout | odev4/prepare_dataset.py:13-14 | the header reads (2051, N, R, C) and the payload is the row-major flattening |
| PrepareDataset.DecodeEncodeImages | odev4/prepare_dataset.py:13-14 | round trip: `load_idx_images` returns exactly what `write_idx_images` wrote |
| PrepareDataset.DecodeRejectsTrailing | odev4/mnist.py:24-28 | the strict reader rejects a written file followed by any extra byte |
| PrepareDataset.EncodeLabels | odev4/prepare_dataset.py:16-23 | succeeds exactly when N fits 32 bits; the file is 8 + N bytes ending with the labels |
| PrepareDataset.EncodedLabelsHeader | odev4/prepare_dataset.py:22 | the header reads (2049, N) |
| PrepareDataset.DecodeEncodeLabels | odev4/prepare_dataset.py:22-23 | round trip: `load_idx_labels` returns exactly what `write_idx_labels` wrote |
| PrepareDataset.ReadImagesForDisplay | odev4/prepare_dataset.py:30-34 | succeeds exactly when at least N*R*C bytes follow the header, returning the header's shape |
| PrepareDataset.ReadImagesIgnoresMagic | odev4/prepare_dataset.py:31 | the display reader's result does not depend on the magic bytes |
| PrepareDataset.ReadImagesIgnoresTrailing | odev4/prepare_dataset.py:33 | bytes after N*R*C payload bytes do not change the display reader's result |
| PrepareDataset.ReadForDisplayEncodeImages | odev4/prepare_dataset.py:13-34 | the display reader returns what `write_idx_images` wrote, whatever follows it |
| PrepareDataset.ReadLabelsForDisplay | odev4/prepare_dataset.py:37-40 | after an 8-byte header, returns the first min(N, remaining) bytes, with no magic or length check |
| PrepareDataset.ReadForDisplayEncodeLabels | odev4/prepare_dataset.py:22-40 | the label display reader returns what `write_idx_labels` wrote, whatever follows it |
| Text.Decimal | Odev5/Chapter12/PythonScripts/convert_tflite_to_c.py:11 | `str(n)` is a non-empty digit string whose first digit is 0 only for 0 |
| Text.ParseDecimalOfDecimal | Odev5/Chapter12/PythonScripts/convert_tflite_to_c.py:11 | `int(str(n)) == n` |
| Text.DecimalInjective | Odev5/Chapter12/PythonScripts/convert_tflite_to_c.py:11 | distinct numbers have distinct numerals |
| Text.SplitOfJoin | Odev5/Chapter12/PythonScripts/convert_tflite_to_c.py:11 | splitting a join of separator-free parts gives the parts back |
| Text.CountCharJoin | Odev5/Chapter12/PythonScripts/convert_tflite_to_c.py:11 | a join of k separator-free parts holds k-1 separators |
| Text.Numerals | Odev5/Chapter12/PythonScripts/convert_tflite_to_c.py:11 | one `str(b)` per byte, in order |
| Text.ParseNumeralsOfNumerals | Odev5/Chapter12/PythonScripts/convert_tflite_to_c.py:11 | parsing the numerals of some bytes gives the bytes |
| Text.SplitJoinedNumerals | Odev5/Chapter12/PythonScripts/convert_tflite_to_c.py:11 | the comma join of n numerals (n > 0) splits back into them and holds n-1 commas |
| Text.ParseByteListOfJoin | Odev5/Chapter12/PythonScripts/convert_tflite_to_c.py:11 | reading back a comma-joined body gives the bytes, including the empty body |
| TfliteCArray.ToCArray | Odev5/Chapter12/PythonScripts/convert_tflite_to_c.py:10-14 | the `.c` text starts with the include line of the header; the header declares the extern byte array and its `<varname>_len` length under the same name |
| TfliteCArray.ArrayBodyElements | Odev5/Chapter12/PythonScripts/convert_tflite_to_c.py:11 | a non-empty body holds len-1 commas and splits into non-empty numerals whose values are the bytes, each below 256 |
| TfliteCArray.EmptyInput | Odev5/Chapter12/PythonScripts/convert_tflite_to_c.py:11-12 | empty input gives the literal `{}` and a length constant of 0 |
| TfliteCArray.ParseSourceOfShape | Odev5/Chapter12/PythonScripts/convert_tflite_to_c.py:12 | on text of the generated shape, the reader returns the parsed body and length numeral |
| TfliteCArray.ParseSourceOfToCArray | Odev5/Chapter12/PythonScripts/convert_tflite_to_c.py:10-14 | round trip: the `.c` text reads back as the input bytes with length constant len(data) |
| ModelDataHeader.WriteModelHeader | Final_Project/Soru2/convert_tflite_to_c.py:13-26 | the text written is the preamble, the loop's pieces in order and the closing with len(data) |
| ModelDataHeader.Piece | Final_Project/Soru2/convert_tflite_to_c.py:19-23 | what iteration i writes: `str(b)`, ", " unless i is the last index, "\n  " when i+1 is a multiple of 12 |
| ModelDataHeader.Body | Final_Project/Soru2/convert_tflite_to_c.py:18-23 | what the whole loop writes: the pieces of all iterations in order |
| ModelDataHeader.WritePiece | Final_Project/Soru2/convert_tflite_to_c.py:19-23 | one iteration appends exactly that iteration's piece: the numeral, ", " unless last, a line break after every twelfth byte |
| ModelDataHeader.PieceCounts | Final_Project/Soru2/convert_tflite_to_c.py:18-23 | iteration i writes one comma unless it handles the last byte, and one line break exactly when i+1 is a multiple of 12 |
| ModelDataHeader.CommaCount | Final_Project/Soru2/convert_tflite_to_c.py:18-21 | the loop writes len-1 ", " separators, none after the last byte |
| ModelDataHeader.LineBreakCount | Final_Project/Soru2/convert_tflite_to_c.py:22-23 | after k iterations, k/12 line breaks have been written |
| ModelDataHeader.PieceWithoutSpaces | Final_Project/Soru2/convert_tflite_to_c.py:19-23 | without whitespace, iteration i writes the numeral and a comma unless it handles the last byte |
| ModelDataHeader.BodyWithoutSpaces | Final_Project/Soru2/convert_tflite_to_c.py:18-23 | without whitespace, the first k iterations write the comma join of the first k numerals (plus the separator still owed) |
| ModelDataHeader.ParseBody | Final_Project/Soru2/convert_tflite_to_c.py:18-23 | stripping whitespace and splitting on "," yields the numerals of the bytes in order, and reading them gives the bytes |
| ModelDataHeader.OutputFrame | Final_Project/Soru2/convert_tflite_to_c.py:15-26 | the text opens with the include and declaration, closes the array with "\n};\n" and ends with the `_len` line; the characters of the text between "_len = " and the final ";\n" are a decimal numeral whose value is len(data) |
| ModelDataHeader.LengthValueOfLine | Final_Project/Soru2/convert_tflite_to_c.py:26 | whatever precedes it, the `_len` line ends the text with "_len = ", a numeral reading back as its length argument, and ";\n" |
| BrightestPixels.SuffixSumMonotone | Final_Project/Soru1/odev_soru1.py:32-33 | fewer levels hold no more pixels |
| BrightestPixels.FindThreshold | Final_Project/Soru1/odev_soru1.py:29-36 | the threshold is in 0..255; no higher level's suffix reaches 1000; when the whole histogram reaches 1000, the threshold's suffix does (total = that suffix) and the next level's does not; otherwise the threshold is 0 and the total is every pixel |
| BrightestPixels.ThresholdUnique | Final_Project/Soru1/odev_soru1.py:34-36 | only one level has a suffix reaching 1000 while the next level's suffix does not |
| YoloLabels.RejectNoise | Final_Project/Soru2/make_yolo_labels.py:24-33 | a box is kept exactly when there is one and its area is at least 200 |
| YoloLabels.ToYolo | Final_Project/Soru2/make_yolo_labels.py:35-40 | scaling back by the image size recovers the box: ww*W = w, hh*H = h, xc*W - ww*W/2 = x, yc*H - hh*H/2 = y |
| YoloLabels.ToYoloNormalised | Final_Project/Soru2/make_yolo_labels.py:35-40 | for a box inside the image all four outputs lie in [0, 1] |
| YoloLabels.ClassId | Final_Project/Soru2/make_yolo_labels.py:46-49 | a directory is a class exactly when its name is non-empty and all digits; the class id is that name's value |
| YoloLabels.ClassIdOfDecimal | Final_Project/Soru2/make_yolo_labels.py:46-49 | the directory named by `str(id)` is class id |
| YoloLabels.AsciiLowerChars | Final_Project/Soru2/make_yolo_labels.py:74 | lower-casing keeps the length, leaves no upper-case letter, keeps every other character and shifts each upper-case letter to its lower-case one |
| YoloLabels.OutputNamesShape | Final_Project/Soru2/make_yolo_labels.py:73-75 | both names start with "<class_id>_<stem>"; the image keeps the lower-cased suffix and the label ends in ".txt", so the label name does not depend on the suffix; the text before the first "_" reads back as the class id |
| YoloLabels.WithSuffix | Final_Project/Soru2/make_yolo_labels.py:51-52 | a glob `*<ext>` returns exactly the directory's entries whose whole name (stem + suffix) ends in `ext`, after lower-casing where the glob ignores case (`foldCase`, as on Windows); so an entry named `.jpg`, whose suffix is empty, matches `*.jpg` |
| YoloLabels.GlobbedFiles | Final_Project/Soru2/make_yolo_labels.py:50-52 | `imgs` (`Globbed`) holds exactly the directory's entries whose whole name one of the patterns `*.jpg`, `*.jpeg`, `*.png` matches |
| YoloLabels.UpperCaseSuffix | Final_Project/Soru2/make_yolo_labels.py:51-74 | in a directory holding only an entry with pathlib suffix `.JPG` (such as `a.JPG`), `imgs` is `[a.JPG]` where the glob ignores case and empty where it does not; its copy is named with ".jpg" |
| YoloLabels.DotNameVisited | Final_Project/Soru2/make_yolo_labels.py:51-75 | in a directory holding only an entry named `.jpg` (pathlib gives it stem ".jpg" and an empty suffix), `imgs` is that entry, whether or not the glob ignores case, and its label is named `<class_id>_.jpg.txt` |
| YoloLabels.Outcome | Final_Project/Soru2/make_yolo_labels.py:56-83 | an image yields a label exactly when it decodes and its box is not noise; the label carries the class id, the label name of `out_lbl` and `to_yolo` of the box |
| YoloLabels.MakeLabels | Final_Project/Soru2/make_yolo_labels.py:42-83 | one label write per image that decodes and has a box that is not noise; `ok` counts the writes (not distinct label files), and ok + fail is the number of entries the patterns match by whole name in digit-named directories |
| YoloLabels.ClassRecordsSound | Final_Project/Soru2/make_yolo_labels.py:54-83 | every label written for a class has that class id and, when OpenCV's boxes lie inside their images, four values in [0, 1] |
| YoloLabels.RecordsSound | Final_Project/Soru2/make_yolo_labels.py:42-83 | every label carries the class id of some digit-named directory visited and, when OpenCV's boxes lie inside their images, four values in [0, 1] |
| YoloLabels.LabelFiles | Final_Project/Soru2/make_yolo_labels.py:12-81 | the label directory may already hold files (`mkdir(exist_ok=True)`); after the run every label name written is a file holding a record of this run, and every file on disk was either there before or written by some record |
| YoloLabels.LabelFilesKept | Final_Project/Soru2/make_yolo_labels.py:12-81 | a file already in the label directory that no record names keeps its earlier text |
| YoloLabels.LabelFilesLast | Final_Project/Soru2/make_yolo_labels.py:81 | `write_text` replaces an existing file: a label file holds the last record written under its name |
| YoloLabels.GlobJpgBeforePng | Final_Project/Soru2/make_yolo_labels.py:50-52 | with `a.jpg` and `a.png` in a directory, `imgs` lists `a.jpg` first, as the patterns are tried in that order |
| YoloLabels.SameStemOverwrites | Final_Project/Soru2/make_yolo_labels.py:73-83 | `a.jpg` and `a.png` of one class give two label writes, both counted in `ok`, to one label file, which holds the label of `a.png`; the run adds that one name to the files already in the directory |

## Left out

- HAL and UART plumbing of `main.c` (`main`, clock, GPIO and UART initialisation, `Error_Handler`): hardware I/O.
- Morphology.OtsuThreshold: the search runs in exact real arithmetic, not the source's `float` (`sum_total`, the means and `var_bet`); float rounding could change which level wins on near-ties.
- File existence checks, file opening, reading and writing in every script: a file is its byte or character content.
- Matplotlib plotting in `prepare_dataset.py`, and the OpenCV window display, resizing, `cv2.calcHist` and `cv2.threshold` in `odev_soru1.py`: display and library calls. `FindThreshold` takes the histogram as input.
- PrepareDataset.EncodeImages: `astype(np.uint8)` wrapping of values outside 0..255 is not modelled. The model's pixels are already bytes.
- PrepareDataset.EncodeLabels: `astype(np.uint8)` wrapping of label values outside 0..255 is not modelled either. The model's labels are already bytes.
- Histogram counts in `odev_soru1.py` are `float32` in the source (from `cv2.calcHist`); they are natural numbers here.
- The OpenCV part of `find_bbox` (blur, Otsu, opening, dilation, contours, bounding rectangle) and `cv2.imread`: an image's decoding, size and largest rectangle are inputs (`Decoded`).
- The `.6f` formatting of the label line and the image copy in `make_yolo_labels.py`: a label is the record `(image name, label name, class id, YOLO box)`.
- YoloLabels.MakeLabels: the directory entries are taken in the order given, assumed already sorted. The images of a class are visited in glob order rather than `sorted(imgs)`. The counts `ok` and `fail` and the set of label file names do not depend on the order. When two images share a stem (`a.jpg`, `a.jpeg`, `a.png`), they write the same label file, and which label survives does depend on it: `sorted` puts `a.jpeg` before `a.jpg`, the glob order does not (`SameStemOverwrites`).
- YoloLabels.ClassId: only ASCII digits count. Python's `isdigit` also accepts other Unicode digits, some of which `int` rejects.
- Files already in the label directory are kept with their text (`LabelFiles`); a file that an earlier run wrote is not parsed back into a record.
- YoloLabels.AsciiLowerChars: only ASCII letters are lower-cased, unlike Python's full Unicode `str.lower`.
- The usage check and argument handling of `Odev5/.../convert_tflite_to_c.py` (lines 16-29): command-line I/O.
- `odev_soru1.py` lines 66-67 refer to `sonuc_resmi` outside the function where it is defined; they are not modelled.
- Training scripts (`train_tf.py`, `kws_train.py`, `train_mlp_mnist.py`, `train_digits.py`, `hdr_train.py`), `split_dataset.py` and `odev3.py`: library calls, random shuffling and serial/display I/O.
- The IDX label format as usually described requires the byte count after the header to equal the declared count. `load_idx_labels` (`odev4/mnist.py:41-49`) does not check this. The model follows the code; see `Mnist.LabelCountUnchecked`.
