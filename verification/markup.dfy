/** The fixed text of the report's markup blocks, as one table. Each block of
    `generate_html_snippets` is an f-string: fixed text with field values
    between the pieces. Here the pieces are the fields of a `Markup` value,
    named after the block they belong to and lettered in order (the advisor
    cover entry is `advisorA`, the name's colour, `advisorB`, the name,
    `advisorC`); `StandardMarkup` holds the source's text without its
    indentation. The builders take the table as a parameter, so their proofs
    never depend on the text itself. */
module ReportMarkup {

  datatype Markup = Markup(
    advisorA: string,
    advisorB: string,
    advisorC: string,
    paragraphOpen: string,
    paragraphClose: string,
    goalA: string,
    goalB: string,
    insightA: string,
    insightB: string,
    insightC: string,
    insightD: string,
    suggestionA: string,
    suggestionB: string,
    suggestionC: string,
    suggestionD: string,
    pageA: string,
    pageB: string,
    pageC: string,
    pageD: string,
    pageE: string,
    pageF: string,
    pageG: string,
    pageH: string,
    pageI: string,
    pageJ: string,
    pageK: string,
    pageL: string,
    pageM: string,
    pageN: string,
    pageO: string,
    reflectionA: string,
    reflectionB: string,
    reflectionC: string,
    reflectionD: string,
    rowA: string,
    rowB: string,
    rowC: string,
    goldenA: string,
    goldenB: string,
    goldenC: string,
    goldenD: string,
    goldenE: string)
  /** The markup of the report generator. */
  const StandardMarkup: Markup := Markup(
    "\n<div class=\"flex items-center gap-2\">\n<div class=\"w-2 h-2 rounded-full bg-",
    "-600\"></div>\n<span class=\"text-sm text-gray-600\">",
    "</span>\n</div>\n",
    "<p class=\"mb-6\">",
    "</p>",
    "\n<li class=\"flex items-start gap-3\">\n<span class=\"text-green-600 mt-1\">◆</span>\n<span>",
    "</span>\n</li>\n",
    "\n<div class=\"p-6 bg-white rounded-lg shadow-sm border border-gray-100\">\n<div class=\"flex items-center gap-3 mb-4\">\n<span class=\"text-2xl\">",
    "</span>\n<h3 class=\"text-lg font-semibold text-gray-800\">",
    "</h3>\n</div>\n<p class=\"text-gray-600 breathing-space\">",
    "</p>\n</div>\n",
    "\n<div class=\"flex items-start gap-3\">\n<span class=\"bg-",
    "-600 text-white text-xs px-2 py-1 rounded font-medium\">",
    "</span>\n<p class=\"text-gray-600\">",
    "</p>\n</div>\n",
    "\n<!-- 幕僚建议页 - ",
    " -->\n<article class=\"magazine-page shadow-2xl mx-auto mb-12 p-16\">\n<header class=\"mb-8 pb-6 border-b-2 border-",
    "-600\">\n<div class=\"flex items-center gap-4\">\n<div class=\"w-12 h-12 rounded-full bg-",
    "-100 flex items-center justify-center\">\n<span class=\"text-2xl\">",
    "</span>\n</div>\n<div>\n<h2 class=\"text-2xl font-bold text-gray-800\">",
    "</h2>\n<p class=\"text-sm text-gray-500\">",
    "</p>\n</div>\n</div>\n</header>\n\n<!-- 名言金句 -->\n<blockquote class=\"border-l-4 border-",
    "-600 pl-6 my-8 bg-",
    "-50 py-4 rounded-r-lg\">\n<p class=\"text-xl font-medium italic text-gray-700\">\n「",
    "」\n</p>\n</blockquote>\n\n<!-- 问题定性 -->\n<div class=\"my-8\">\n<h3 class=\"text-lg font-semibold text-gray-700 mb-3 flex items-center gap-2\">\n<span class=\"text-",
    "-600\">◎</span> 问题定性\n</h3>\n<p class=\"text-gray-600 breathing-space pl-6\">\n",
    "\n</p>\n</div>\n\n<!-- 经历分享 -->\n<div class=\"my-8 p-6 bg-gray-50 rounded-lg\">\n<h3 class=\"text-lg font-semibold text-gray-700 mb-3\">📖 经历分享</h3>\n<p class=\"text-gray-600 breathing-space\">\n",
    "\n</p>\n</div>\n\n<!-- 具体建议 -->\n<div class=\"my-8\">\n<h3 class=\"text-lg font-semibold text-gray-700 mb-4 flex items-center gap-2\">\n<span class=\"text-",
    "-600\">◎</span> 具体建议\n</h3>\n<div class=\"space-y-3 pl-6\">\n",
    "\n</div>\n</div>\n</article>\n",
    "\n<div class=\"p-6 bg-white rounded-lg shadow-sm border-l-4 border-",
    "-600\">\n<h3 class=\"text-lg font-bold text-gray-800 mb-2\">",
    "</h3>\n<div class=\"text-gray-600 breathing-space space-y-2\">\n",
    "\n</div>\n</div>\n",
    "\n<div class=\"flex items-center gap-4 p-4 bg-white rounded-lg border border-gray-200\">\n<div class=\"w-6 h-6 rounded border-2 border-gray-300\"></div>\n<div class=\"flex-1\">\n<p class=\"text-gray-700 font-medium\">",
    "</p>\n<p class=\"text-sm text-gray-500\">截止日期：",
    "</p>\n</div>\n</div>\n",
    "\n<div class=\"text-center\">\n<p class=\"text-2xl font-serif italic text-gray-700 mb-4\">\"",
    "\"</p>\n<div class=\"inline-block px-3 py-1 bg-",
    "-100 text-",
    "-700 text-sm rounded-full\">\n",
    "\n</div>\n</div>\n")
}
