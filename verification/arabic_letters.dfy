/**
 * The Arabic code points the Buckwalter table refers to. The source keeps
 * each as a one-code-point string; here each is the code point itself, and
 * the table wraps it in a one-element string. Only the constants the table
 * uses are declared here.
 */
module ArabicLetters {

  // Shadda
  const Shadda: char := '\U{0651}'

  // Short vowels and tanween
  const Sukoon: char := '\U{0652}'
  const Damma: char := '\U{064F}'
  const Fatha: char := '\U{064E}'
  const Kasra: char := '\U{0650}'
  const Dammatan: char := '\U{064C}'
  const Fathatan: char := '\U{064B}'
  const Kasratan: char := '\U{064D}'

  // Misc
  const SuperscriptAlef: char := '\U{0670}'

  // Punctuation
  const ArabicComma: char := '\U{060C}'

  // Letters
  const Hamza: char := '\U{0621}'
  const AlefWithMadda: char := '\U{0622}'
  const AlefWithHamzaAbove: char := '\U{0623}'
  const WawWithHamza: char := '\U{0624}'
  const AlefWithHamzaBelow: char := '\U{0625}'
  const YehWithHamzaAbove: char := '\U{0626}'
  const Alef: char := '\U{0627}'
  const Beh: char := '\U{0628}'
  const TehMarbuta: char := '\U{0629}'
  const Teh: char := '\U{062A}'
  const Theh: char := '\U{062B}'
  const Jeem: char := '\U{062C}'
  const Hah: char := '\U{062D}'
  const Khah: char := '\U{062E}'
  const Dal: char := '\U{062F}'
  const Thal: char := '\U{0630}'
  const Reh: char := '\U{0631}'
  const Zain: char := '\U{0632}'
  const Seen: char := '\U{0633}'
  const Sheen: char := '\U{0634}'
  const Sad: char := '\U{0635}'
  const Dad: char := '\U{0636}'
  const Tah: char := '\U{0637}'
  const Zah: char := '\U{0638}'
  const Ain: char := '\U{0639}'
  const Ghain: char := '\U{063A}'
  const Feh: char := '\U{0641}'
  const Qaf: char := '\U{0642}'
  const Kaf: char := '\U{0643}'
  const Lam: char := '\U{0644}'
  const Meem: char := '\U{0645}'
  const Noon: char := '\U{0646}'
  const Heh: char := '\U{0647}'
  const Waw: char := '\U{0648}'
  const AlefMaksura: char := '\U{0649}'
  const Yeh: char := '\U{064A}'
  const AlefWaslah: char := '\U{0671}'

  const Tatweel: char := '\U{0640}'
}
